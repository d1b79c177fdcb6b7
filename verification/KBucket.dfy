// One k-bucket: at most K contacts, ordered from least to most recently seen.
module Buckets {
  import opened Common
  import opened Keys
  import opened Contacts

  // How the ping of the bucket's head came out.
  datatype Ping = Replied | NoReply | PingFailed

  ghost predicate UniqueIds(nodes: seq<NodeInfo>) {
    forall i, j | 0 <= i < j < |nodes| :: nodes[i].id != nodes[j].id
  }

  ghost predicate HasId(nodes: seq<NodeInfo>, id: Key) {
    exists x | x in nodes :: x.id == id
  }

  // The contacts of the bucket without the one with this id.
  function Without(nodes: seq<NodeInfo>, id: Key): (r: seq<NodeInfo>)
    ensures |r| <= |nodes|
  {
    if nodes == [] then []
    else if nodes[0].id == id then nodes[1..]
    else [nodes[0]] + Without(nodes[1..], id)
  }

  // Without cuts out the first contact with the id, if there is one.
  lemma {:induction false} WithoutAt(nodes: seq<NodeInfo>, id: Key) returns (k: nat)
    ensures k <= |nodes|
    ensures forall i | 0 <= i < k :: nodes[i].id != id
    ensures k < |nodes| ==> nodes[k].id == id && Without(nodes, id) == nodes[..k] + nodes[k + 1..]
    ensures k == |nodes| ==> Without(nodes, id) == nodes
  {
    if nodes == [] || nodes[0].id == id {
      k := 0;
    } else {
      var m := WithoutAt(nodes[1..], id);
      k := m + 1;
      assert nodes == [nodes[0]] + nodes[1..];
    }
  }

  lemma WithoutProps(nodes: seq<NodeInfo>, id: Key)
    requires UniqueIds(nodes)
    ensures UniqueIds(Without(nodes, id))
    ensures forall x :: x in Without(nodes, id) <==> x in nodes && x.id != id
    ensures HasId(nodes, id) <==> |Without(nodes, id)| == |nodes| - 1
    ensures !HasId(nodes, id) ==> Without(nodes, id) == nodes
  {
  }

  // The bucket after KBucket::add_nodeinfo, whatever the ping gives.
  function Added(nodes: seq<NodeInfo>, x: NodeInfo, ping: Ping): (r: seq<NodeInfo>)
  {
    var rest := Without(nodes, x.id);
    if |rest| < K then rest + [x]
    else if ping.Replied? then rest[1..] + [rest[0]]
    else if ping.NoReply? then rest[1..] + [x]
    else rest[1..]
  }

  // The add fails only when a full bucket could not ping its head.
  predicate AddFails(nodes: seq<NodeInfo>, x: NodeInfo, ping: Ping) {
    |Without(nodes, x.id)| >= K && ping.PingFailed?
  }

  ghost predicate BucketOk(nodes: seq<NodeInfo>) {
    |nodes| <= K && UniqueIds(nodes)
  }

  // What an add does to the contacts: it never grows past K, keeps ids unique,
  // and drops exactly the head of a full bucket that lacked the newcomer, unless
  // the head answered. The newcomer stays out only of such a bucket, and the add
  // fails only there.
  lemma AddedProps(nodes: seq<NodeInfo>, x: NodeInfo, ping: Ping)
    requires BucketOk(nodes)
    ensures var r := Added(nodes, x, ping);
            && BucketOk(r)
            && (forall y | y in r :: y == x || (y in nodes && y.id != x.id))
            && (forall y | y in nodes && y.id != x.id ::
                  y !in r <==> |nodes| == K && !HasId(nodes, x.id) && y == nodes[0] && !ping.Replied?)
            && (x in r <==> |nodes| < K || HasId(nodes, x.id) || ping.NoReply?)
            && (AddFails(nodes, x, ping) <==> |nodes| == K && !HasId(nodes, x.id) && ping.PingFailed?)
  {
    WithoutProps(nodes, x.id);
    var rest := Without(nodes, x.id);
    if |rest| >= K {
      assert rest == nodes;
      assert nodes == [nodes[0]] + nodes[1..];
    }
  }

  class KBucket {
    var nodes: seq<NodeInfo>
    const capacity: nat := K

    constructor (nodes: seq<NodeInfo>)
      ensures this.nodes == nodes
    {
      this.nodes := nodes;
    }

    // KBucket::remove_nodeinfo
    method RemoveNodeinfo(key: Key) returns (removed: Option<NodeInfo>)
      modifies this
      ensures nodes == Without(old(nodes), key)
      ensures removed.None? <==> !HasId(old(nodes), key)
      ensures removed.Some? ==> removed.value in old(nodes) && removed.value.id == key
    {
      removed := None;
      var i := 0;
      while i < |nodes|
        invariant 0 <= i <= |nodes| && nodes == old(nodes)
        invariant forall j | 0 <= j < i :: nodes[j].id != key
      {
        if nodes[i].id == key {
          ghost var k := WithoutAt(nodes, key);
          assert k == i;
          removed := Some(nodes[i]);
          nodes := nodes[..i] + nodes[i + 1..];
          return;
        }
        i := i + 1;
      }
      ghost var k := WithoutAt(nodes, key);
    }

    // KBucket::add_nodeinfo; the outcome of pinging the head is an input.
    method AddNodeinfo(x: NodeInfo, ping: Ping) returns (ok: bool)
      modifies this
      ensures nodes == Added(old(nodes), x, ping)
      ensures ok <==> !AddFails(old(nodes), x, ping)
    {
      var _ := RemoveNodeinfo(x.id);
      if |nodes| < capacity {
        nodes := nodes + [x];
        return true;
      }
      var head := nodes[0];
      nodes := nodes[1..];
      match ping {
        case Replied =>
          nodes := nodes + [head];
          ok := true;
        case NoReply =>
          nodes := nodes + [x];
          ok := true;
        case PingFailed =>
          ok := false;
      }
    }

    // KBucket::get_nodeinfo
    method GetNodeinfo(key: Key) returns (r: Option<NodeInfo>)
      ensures r.None? ==> !HasId(nodes, key)
      ensures r.Some? ==> r.value in nodes && r.value.id == key
    {
      for i := 0 to |nodes|
        invariant forall j | 0 <= j < i :: nodes[j].id != key
      {
        if nodes[i].id == key {
          return Some(nodes[i]);
        }
      }
      return None;
    }
  }

  // ----- least recently seen -----

  datatype Event = Event(contact: NodeInfo, ping: Ping)

  // A bucket together with a clock and the time each id was last seen: when it
  // was added, or when it answered a ping.
  datatype History = History(nodes: seq<NodeInfo>, seen: map<Key, nat>, now: nat)

  function Step(h: History, e: Event): History {
    var pinged := |Without(h.nodes, e.contact.id)| >= K && e.ping.Replied?;
    var seen := h.seen[e.contact.id := h.now];
    History(
      Added(h.nodes, e.contact, e.ping),
      if pinged then seen[Without(h.nodes, e.contact.id)[0].id := h.now] else seen,
      h.now + 1)
  }

  function Replay(events: seq<Event>): History {
    if events == [] then History([], map[], 0)
    else Step(Replay(events[..|events| - 1]), events[|events| - 1])
  }

  // Head to tail is least to most recently seen, all of it before now.
  ghost predicate Ordered(nodes: seq<NodeInfo>, seen: map<Key, nat>, now: nat) {
    && (forall i | 0 <= i < |nodes| :: nodes[i].id in seen && seen[nodes[i].id] < now)
    && (forall i, j | 0 <= i < j < |nodes| :: seen[nodes[i].id] < seen[nodes[j].id])
  }

  ghost predicate LeastRecentFirst(h: History) {
    BucketOk(h.nodes) && Ordered(h.nodes, h.seen, h.now)
  }

  // Removing one contact keeps the order of the others.
  lemma WithoutOrder(nodes: seq<NodeInfo>, id: Key, seen: map<Key, nat>, now: nat)
    requires Ordered(nodes, seen, now)
    ensures Ordered(Without(nodes, id), seen, now)
  {
    var k := WithoutAt(nodes, id);
  }

  // Whoever is seen now goes to the tail.
  lemma AppendNewest(nodes: seq<NodeInfo>, x: NodeInfo, seen: map<Key, nat>, now: nat)
    requires Ordered(nodes, seen, now)
    requires forall y | y in nodes :: y.id != x.id
    ensures Ordered(nodes, seen[x.id := now], now + 1)
    ensures Ordered(nodes + [x], seen[x.id := now], now + 1)
  {
  }

  lemma StepKeepsOrder(h: History, e: Event)
    requires LeastRecentFirst(h)
    ensures LeastRecentFirst(Step(h, e))
  {
    AddedProps(h.nodes, e.contact, e.ping);
    StepOrder(h, e);
  }

  lemma StepOrder(h: History, e: Event)
    requires UniqueIds(h.nodes) && Ordered(h.nodes, h.seen, h.now)
    ensures var g := Step(h, e); Ordered(g.nodes, g.seen, g.now)
  {
    var x, rest := e.contact, Without(h.nodes, e.contact.id);
    WithoutProps(h.nodes, x.id);
    WithoutOrder(h.nodes, x.id, h.seen, h.now);
    if |rest| < K {
      AppendNewest(rest, x, h.seen, h.now);
    } else {
      FullStepOrder(h, e, rest);
    }
  }

  lemma FullStepOrder(h: History, e: Event, rest: seq<NodeInfo>)
    requires rest == Without(h.nodes, e.contact.id) && |rest| >= K
    requires UniqueIds(rest) && Ordered(rest, h.seen, h.now)
    requires forall y | y in rest :: y.id != e.contact.id
    ensures var g := Step(h, e); Ordered(g.nodes, g.seen, g.now)
  {
    FullOrder(rest, e.contact, h.seen, h.now);
  }

  lemma FullOrder(rest: seq<NodeInfo>, x: NodeInfo, seen: map<Key, nat>, now: nat)
    requires rest != [] && UniqueIds(rest) && Ordered(rest, seen, now)
    requires forall y | y in rest :: y.id != x.id
    ensures Ordered(rest[1..] + [rest[0]], seen[x.id := now][rest[0].id := now], now + 1)
    ensures Ordered(rest[1..], seen[x.id := now], now + 1)
    ensures Ordered(rest[1..] + [x], seen[x.id := now], now + 1)
  {
  }

  // Only the least recently seen contact ever makes room for another one.
  lemma OnlyLeastRecentDisplaced(h: History, e: Event, y: NodeInfo, z: NodeInfo)
    requires LeastRecentFirst(h)
    requires y in h.nodes && !HasId(Step(h, e).nodes, y.id)
    requires z in h.nodes && z != y
    ensures h.seen[y.id] < h.seen[z.id]
    ensures e.contact.id != y.id && |h.nodes| == K
  {
    AddedProps(h.nodes, e.contact, e.ping);
    assert y.id == e.contact.id ==> HasId(h.nodes, y.id);
  }

  // Over every run from an empty bucket.
  lemma {:induction false} RunKeepsOrder(events: seq<Event>)
    ensures LeastRecentFirst(Replay(events))
  {
    if events != [] {
      RunKeepsOrder(events[..|events| - 1]);
      StepKeepsOrder(Replay(events[..|events| - 1]), events[|events| - 1]);
    }
  }
}
