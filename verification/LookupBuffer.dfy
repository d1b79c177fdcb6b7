// The lookup buffer as the object whose vector the source updates in place.
module LookupBuffers {
  import opened Keys
  import opened Contacts
  import opened Closest
  import opened Common
  import opened Lookup

  predicate IsValue(r: Response) {
    r.kind == Some(Value)
  }

  // How many responses are recorded: all of them, or those before the first
  // value when a value is looked for.
  function RecordedPrefix(rs: seq<Response>, forValue: bool): (k: nat)
    ensures k <= |rs|
    ensures forValue ==> forall i | 0 <= i < k :: !IsValue(rs[i])
    ensures k < |rs| ==> forValue && IsValue(rs[k])
  {
    if rs == [] then 0
    else if forValue && IsValue(rs[0]) then 0
    else 1 + RecordedPrefix(rs[1..], forValue)
  }

  function RecordedNodes(nodes: seq<Entry>, t: Key, self: NodeInfo, rs: seq<Response>, forValue: bool): seq<Entry> {
    var k := RecordedPrefix(rs, forValue);
    var absorbed := AbsorbAll(nodes, self, rs[..k], forValue);
    if k < |rs| then absorbed else Sorted(absorbed, t)
  }

  class LookupBuffer {
    var nodes: seq<Entry>
    const target: Key
    const thisNode: NodeInfo

    constructor (target: Key, initial: seq<NodeInfo>, thisNode: NodeInfo)
      ensures this.target == target && this.thisNode == thisNode
      ensures nodes == Sorted(Fresh(initial), target)
    {
      this.target, this.thisNode, nodes := target, thisNode, [];
      new;
      for i := 0 to |initial|
        invariant nodes == Fresh(initial[..i])
      {
        nodes := nodes + [Entry(initial[i], false, false)];
      }
      assert initial[..|initial|] == initial;
      Sort();
    }

    // LookupBuffer::sort
    method Sort()
      modifies this
      ensures nodes == Sorted(old(nodes), target)
    {
      nodes := StableSort(nodes, EntryDistance(target));
    }

    // LookupBuffer::mark_node_as_queried
    method MarkNodeAsQueried(id: Key)
      modifies this
      ensures nodes == MarkQueried(old(nodes), id)
    {
      for i := 0 to |nodes|
        invariant |nodes| == |old(nodes)|
        invariant forall j | 0 <= j < i :: nodes[j] == MarkQueried(old(nodes), id)[j]
        invariant forall j | i <= j < |nodes| :: nodes[j] == old(nodes)[j]
      {
        if nodes[i].info.id == id {
          nodes := nodes[i := nodes[i].(queried := true)];
        }
      }
    }

    // LookupBuffer::mark_node_as_responded
    method MarkNodeAsResponded(id: Key)
      modifies this
      ensures nodes == MarkResponded(old(nodes), id)
    {
      for i := 0 to |nodes|
        invariant |nodes| == |old(nodes)|
        invariant forall j | 0 <= j < i :: nodes[j] == MarkResponded(old(nodes), id)[j]
        invariant forall j | i <= j < |nodes| :: nodes[j] == old(nodes)[j]
      {
        if nodes[i].info.id == id {
          nodes := nodes[i := nodes[i].(responded := true)];
        }
      }
    }

    // LookupBuffer::get_alpha_unqueried_nodes
    method GetAlphaUnqueriedNodes() returns (candidates: seq<NodeInfo>)
      modifies this
      ensures candidates == AlphaOf(old(nodes))
      ensures nodes == MarkAllQueried(old(nodes), candidates)
    {
      candidates := AlphaOf(nodes);
      for i := 0 to |candidates|
        invariant nodes == MarkAllQueried(old(nodes), candidates[..i])
      {
        MarkNodeAsQueried(candidates[i].id);
        assert candidates[..i + 1][..i] == candidates[..i];
      }
      assert candidates[..|candidates|] == candidates;
    }

    // LookupBuffer::record_lookup_round_responses; the result is whether the
    // source's loop goes on.
    method RecordLookupRoundResponses(responses: seq<Response>, forValue: bool) returns (goOn: bool)
      modifies this
      ensures nodes == RecordedNodes(old(nodes), target, thisNode, responses, forValue)
      ensures goOn <==> RecordedPrefix(responses, forValue) < |responses| || ResultOf(old(nodes)) != ResultOf(nodes)
    {
      var previous := ResultOf(nodes);
      for i := 0 to |responses|
        invariant i <= RecordedPrefix(responses, forValue)
        invariant nodes == AbsorbAll(old(nodes), thisNode, responses[..i], forValue)
      {
        var r := responses[i];
        assert responses[..i + 1][..i] == responses[..i];
        if forValue && IsValue(r) {
          return true;
        }
        if !r.success || (!forValue && IsValue(r)) {
          MarkNodeAsQueried(r.resolver.id);
        } else {
          LearnContacts(r.kClosest);
          MarkNodeAsResponded(r.resolver.id);
        }
      }
      assert responses[..|responses|] == responses;
      Sort();
      return previous != ResultOf(nodes);
    }

    // The inner loop of recording: push the contacts that are new.
    method LearnContacts(reported: seq<NodeInfo>)
      modifies this
      ensures nodes == Learn(old(nodes), thisNode, reported)
    {
      for i := 0 to |reported|
        invariant nodes == Learn(old(nodes), thisNode, reported[..i])
      {
        assert reported[..i + 1][..i] == reported[..i];
        if reported[i] !in Infos(nodes) && reported[i] != thisNode {
          nodes := nodes + [Entry(reported[i], false, false)];
        }
      }
      assert reported[..|reported|] == reported;
    }
  }
}
