// Contacts and their distance to a target.
module Contacts {
  import opened Keys
  import opened Closest

  datatype SocketAddr = SocketAddr(ip: nat, port: nat)
  datatype NodeInfo = NodeInfo(id: Key, address: SocketAddr)

  function DistanceTo(t: Key): NodeInfo -> nat {
    (x: NodeInfo) => Dist(x.id, t)
  }

  ghost predicate DistinctIds(s: set<NodeInfo>) {
    forall x, y | x in s && y in s && x.id == y.id :: x == y
  }

  lemma DistinctIdsNoTies(s: set<NodeInfo>, t: Key)
    requires DistinctIds(s)
    ensures NoTies(s, DistanceTo(t))
  {
    forall x, y | x in s && y in s && DistanceTo(t)(x) == DistanceTo(t)(y)
      ensures x == y
    {
      DistanceIsMetric(x.id, y.id, t);
    }
  }

  lemma IncreasingDistinctIds(c: seq<NodeInfo>, t: Key)
    requires Increasing(c, DistanceTo(t))
    ensures DistinctIds(Elems(c))
  {
    forall x, y | x in Elems(c) && y in Elems(c) && x.id == y.id
      ensures x == y
    {
      var i :| 0 <= i < |c| && c[i] == x;
      var j :| 0 <= j < |c| && c[j] == y;
      assert DistanceTo(t)(x) == DistanceTo(t)(y);
    }
  }
}
