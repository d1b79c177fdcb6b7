// The lookup buffer: contacts met during one iterative lookup, with marks.
module Lookup {
  import opened Keys
  import opened Contacts
  import opened Closest
  import opened Common

  const ALPHA: nat := 3

  datatype Entry = Entry(info: NodeInfo, queried: bool, responded: bool)
  {
    // LookupNodeInfo::has_failed_to_respond
    predicate Failed() {
      queried && !responded
    }
  }

  datatype SuccessType = Value | Nodes
  datatype Response = Response(resolver: NodeInfo, success: bool, kind: Option<SuccessType>, kClosest: seq<NodeInfo>)

  function NodesSuccessful(resolver: NodeInfo, kClosest: seq<NodeInfo>): Response {
    Response(resolver, true, Some(Nodes), kClosest)
  }

  function ValueSuccessful(resolver: NodeInfo): Response {
    Response(resolver, true, Some(Value), [])
  }

  function FailedResponse(resolver: NodeInfo): Response {
    Response(resolver, false, None, [])
  }

  // ----- the buffer on values -----

  function Infos(nodes: seq<Entry>): (r: seq<NodeInfo>)
    ensures |r| == |nodes|
    ensures forall i | 0 <= i < |r| :: r[i] == nodes[i].info
  {
    seq(|nodes|, i requires 0 <= i < |nodes| => nodes[i].info)
  }

  function Fresh(infos: seq<NodeInfo>): (r: seq<Entry>)
    ensures |r| == |infos|
    ensures forall i | 0 <= i < |r| :: r[i] == Entry(infos[i], false, false)
  {
    seq(|infos|, i requires 0 <= i < |infos| => Entry(infos[i], false, false))
  }

  // LookupBuffer::mark_node_as_queried
  function MarkQueried(nodes: seq<Entry>, id: Key): (r: seq<Entry>)
    ensures |r| == |nodes|
    ensures forall i | 0 <= i < |r| :: r[i] == if nodes[i].info.id == id then nodes[i].(queried := true) else nodes[i]
  {
    seq(|nodes|, i requires 0 <= i < |nodes| =>
      if nodes[i].info.id == id then nodes[i].(queried := true) else nodes[i])
  }

  // LookupBuffer::mark_node_as_responded
  function MarkResponded(nodes: seq<Entry>, id: Key): (r: seq<Entry>)
    ensures |r| == |nodes|
    ensures forall i | 0 <= i < |r| :: r[i] == if nodes[i].info.id == id then nodes[i].(responded := true) else nodes[i]
  {
    seq(|nodes|, i requires 0 <= i < |nodes| =>
      if nodes[i].info.id == id then nodes[i].(responded := true) else nodes[i])
  }

  function MarkAllQueried(nodes: seq<Entry>, picks: seq<NodeInfo>): (r: seq<Entry>)
    ensures |r| == |nodes|
    decreases |picks|
  {
    if picks == [] then nodes
    else MarkQueried(MarkAllQueried(nodes, picks[..|picks| - 1]), picks[|picks| - 1].id)
  }

  // Append the reported contacts that are new and not this node.
  function Learn(nodes: seq<Entry>, self: NodeInfo, reported: seq<NodeInfo>): (r: seq<Entry>)
    decreases |reported|
  {
    if reported == [] then nodes
    else
      var before, x := Learn(nodes, self, reported[..|reported| - 1]), reported[|reported| - 1];
      if x !in Infos(before) && x != self then before + [Entry(x, false, false)] else before
  }

  // A response that reports contacts.
  predicate Answers(r: Response, forValue: bool) {
    r.success && !(!forValue && r.kind == Some(Value))
  }

  function Absorb(nodes: seq<Entry>, self: NodeInfo, r: Response, forValue: bool): seq<Entry> {
    if Answers(r, forValue) then MarkResponded(Learn(nodes, self, r.kClosest), r.resolver.id)
    else MarkQueried(nodes, r.resolver.id)
  }

  function AbsorbAll(nodes: seq<Entry>, self: NodeInfo, rs: seq<Response>, forValue: bool): seq<Entry>
    decreases |rs|
  {
    if rs == [] then nodes else Absorb(AbsorbAll(nodes, self, rs[..|rs| - 1], forValue), self, rs[|rs| - 1], forValue)
  }

  function EntryDistance(t: Key): Entry -> nat {
    (e: Entry) => Dist(e.info.id, t)
  }

  function Sorted(nodes: seq<Entry>, t: Key): seq<Entry> {
    StableSort(nodes, EntryDistance(t))
  }

  // LookupBuffer::get_resulting_vector
  function ResultOf(nodes: seq<Entry>): seq<NodeInfo> {
    Infos(Take(Select(nodes, (e: Entry) => !e.Failed()), K))
  }

  // LookupBuffer::get_unqueried_resulting_nodes: the first K entries, failed
  // ones included, and of those the ones not queried yet.
  function UnqueriedResultOf(nodes: seq<Entry>): seq<NodeInfo> {
    Infos(Select(Take(nodes, K), (e: Entry) => !e.queried))
  }

  // LookupBuffer::get_responsive_nodes
  function ResponsiveOf(nodes: seq<Entry>): seq<NodeInfo> {
    Infos(Select(nodes, (e: Entry) => e.queried && e.responded))
  }

  // The candidates of get_alpha_unqueried_nodes.
  function AlphaOf(nodes: seq<Entry>): seq<NodeInfo> {
    Take(Infos(Select(nodes, (e: Entry) => !e.queried)), ALPHA)
  }

  // ----- the buffer as sets -----

  ghost function Known(nodes: seq<Entry>): set<NodeInfo> {
    set i | 0 <= i < |nodes| :: nodes[i].info
  }

  ghost function Queried(nodes: seq<Entry>): set<NodeInfo> {
    set i | 0 <= i < |nodes| && nodes[i].queried :: nodes[i].info
  }

  ghost function Responded(nodes: seq<Entry>): set<NodeInfo> {
    set i | 0 <= i < |nodes| && nodes[i].responded :: nodes[i].info
  }

  ghost function NonFailed(nodes: seq<Entry>): set<NodeInfo> {
    Known(nodes) - (Queried(nodes) - Responded(nodes))
  }

  // No contact twice, and an id names one contact.
  ghost predicate Proper(nodes: seq<Entry>) {
    NoDup(Infos(nodes)) && DistinctIds(Known(nodes))
  }

  lemma SameIndex(nodes: seq<Entry>, i: int, j: int)
    requires NoDup(Infos(nodes)) && 0 <= i < |nodes| && 0 <= j < |nodes| && nodes[i].info == nodes[j].info
    ensures i == j
  {
  }

  // Membership in the sets, entry by entry.
  lemma EntryMarks(nodes: seq<Entry>, i: int)
    requires NoDup(Infos(nodes)) && 0 <= i < |nodes|
    ensures nodes[i].info in Known(nodes)
    ensures nodes[i].info in Queried(nodes) <==> nodes[i].queried
    ensures nodes[i].info in Responded(nodes) <==> nodes[i].responded
    ensures nodes[i].info in NonFailed(nodes) <==> !nodes[i].Failed()
  {
  }

  lemma InfosElems(nodes: seq<Entry>)
    ensures Elems(Infos(nodes)) == Known(nodes)
  {
  }

  // Marking touches flags only.
  lemma MarkQueriedSets(nodes: seq<Entry>, x: NodeInfo)
    requires Proper(nodes) && x in Known(nodes)
    ensures Infos(MarkQueried(nodes, x.id)) == Infos(nodes)
    ensures Known(MarkQueried(nodes, x.id)) == Known(nodes)
    ensures Queried(MarkQueried(nodes, x.id)) == Queried(nodes) + {x}
    ensures Responded(MarkQueried(nodes, x.id)) == Responded(nodes)
  {
  }

  lemma MarkRespondedSets(nodes: seq<Entry>, x: NodeInfo)
    requires Proper(nodes) && x in Known(nodes)
    ensures Infos(MarkResponded(nodes, x.id)) == Infos(nodes)
    ensures Known(MarkResponded(nodes, x.id)) == Known(nodes)
    ensures Queried(MarkResponded(nodes, x.id)) == Queried(nodes)
    ensures Responded(MarkResponded(nodes, x.id)) == Responded(nodes) + {x}
  {
  }

  lemma {:induction false} MarkAllSets(nodes: seq<Entry>, picks: seq<NodeInfo>)
    requires Proper(nodes) && Elems(picks) <= Known(nodes)
    ensures Infos(MarkAllQueried(nodes, picks)) == Infos(nodes)
    ensures Known(MarkAllQueried(nodes, picks)) == Known(nodes)
    ensures Queried(MarkAllQueried(nodes, picks)) == Queried(nodes) + Elems(picks)
    ensures Responded(MarkAllQueried(nodes, picks)) == Responded(nodes)
  {
    if picks != [] {
      var p, x := picks[..|picks| - 1], picks[|picks| - 1];
      assert picks == p + [x];
      assert x in Elems(picks);
      MarkAllSets(nodes, p);
      MarkQueriedSets(MarkAllQueried(nodes, p), x);
    }
  }

  // Learning adds exactly the new contacts, unmarked.
  lemma {:induction false} LearnSets(nodes: seq<Entry>, self: NodeInfo, reported: seq<NodeInfo>)
    requires NoDup(Infos(nodes))
    ensures var r := Learn(nodes, self, reported);
            && NoDup(Infos(r))
            && Known(r) == Known(nodes) + (Elems(reported) - {self})
            && Queried(r) == Queried(nodes) && Responded(r) == Responded(nodes)
  {
    if reported != [] {
      var p, x := reported[..|reported| - 1], reported[|reported| - 1];
      assert reported == p + [x];
      LearnSets(nodes, self, p);
      var before := Learn(nodes, self, p);
      InfosElems(before);
      if x !in Infos(before) && x != self {
        AppendSets(before, x);
      }
    }
  }

  lemma AppendSets(nodes: seq<Entry>, x: NodeInfo)
    requires NoDup(Infos(nodes)) && x !in Infos(nodes)
    ensures var r := nodes + [Entry(x, false, false)];
            && NoDup(Infos(r)) && Known(r) == Known(nodes) + {x}
            && Queried(r) == Queried(nodes) && Responded(r) == Responded(nodes)
  {
    var r := nodes + [Entry(x, false, false)];
    assert forall i | 0 <= i < |nodes| :: r[i] == nodes[i] && nodes[i].info == Infos(nodes)[i];
    assert r[|nodes|].info == x;
  }

  // ----- sorting and selecting -----

  ghost predicate InOrder(nodes: seq<Entry>, t: Key) {
    Increasing(nodes, EntryDistance(t))
  }

  lemma SameMembersSameSets(a: seq<Entry>, b: seq<Entry>)
    requires Elems(a) == Elems(b)
    ensures Known(a) == Known(b) && Queried(a) == Queried(b) && Responded(a) == Responded(b)
  {
    forall i | 0 <= i < |a|
      ensures exists j :: 0 <= j < |b| && b[j] == a[i]
    {
      assert a[i] in Elems(b);
    }
    forall j | 0 <= j < |b|
      ensures exists i :: 0 <= i < |a| && a[i] == b[j]
    {
      assert b[j] in Elems(a);
    }
  }

  lemma InOrderInfos(nodes: seq<Entry>, t: Key)
    requires InOrder(nodes, t)
    ensures Increasing(Infos(nodes), DistanceTo(t))
    ensures NoDup(Infos(nodes))
  {
  }

  // Sorting puts the buffer in order and changes none of its sets.
  lemma SortedSets(nodes: seq<Entry>, t: Key)
    requires Proper(nodes)
    ensures var r := Sorted(nodes, t);
            && InOrder(r, t)
            && Known(r) == Known(nodes) && Queried(r) == Queried(nodes) && Responded(r) == Responded(nodes)
  {
    assert forall i, j | 0 <= i < j < |nodes| :: nodes[i] == nodes[j] ==> Infos(nodes)[i] == Infos(nodes)[j];
    forall e, f | e in Elems(nodes) && f in Elems(nodes) && EntryDistance(t)(e) == EntryDistance(t)(f)
      ensures e == f
    {
      var i :| 0 <= i < |nodes| && nodes[i] == e;
      var j :| 0 <= j < |nodes| && nodes[j] == f;
      DistanceIsMetric(e.info.id, f.info.id, t);
      SameIndex(nodes, i, j);
    }
    SortIncreasing(nodes, EntryDistance(t));
    SameMembersSameSets(Sorted(nodes, t), nodes);
  }

  lemma SelectKnown(nodes: seq<Entry>, p: Entry -> bool)
    ensures Known(Select(nodes, p)) == set i | 0 <= i < |nodes| && p(nodes[i]) :: nodes[i].info
  {
    var s := Select(nodes, p);
    SelectElems(nodes, p);
    forall j | 0 <= j < |s|
      ensures exists i :: 0 <= i < |nodes| && p(nodes[i]) && nodes[i] == s[j]
    {
      assert s[j] in s;
    }
    forall i | 0 <= i < |nodes| && p(nodes[i])
      ensures exists j :: 0 <= j < |s| && s[j] == nodes[i]
    {
      assert nodes[i] in s;
    }
  }

  lemma SelectedInfos(nodes: seq<Entry>, p: Entry -> bool, t: Key)
    requires InOrder(nodes, t)
    ensures Increasing(Infos(Select(nodes, p)), DistanceTo(t))
    ensures Elems(Infos(Select(nodes, p))) == set i | 0 <= i < |nodes| && p(nodes[i]) :: nodes[i].info
  {
    SelectIncreasing(nodes, p, EntryDistance(t));
    InOrderInfos(Select(nodes, p), t);
    SelectKnown(nodes, p);
    InfosElems(Select(nodes, p));
  }

  lemma InfosTake(s: seq<Entry>, n: nat)
    ensures Infos(Take(s, n)) == Take(Infos(s), n)
  {
  }

  // The result vector is the K closest of the contacts that did not fail.
  lemma ResultIsClosest(nodes: seq<Entry>, t: Key)
    requires InOrder(nodes, t)
    ensures ClosestOf(ResultOf(nodes), NonFailed(nodes), DistanceTo(t), K)
  {
    var p := (e: Entry) => !e.Failed();
    SelectedInfos(nodes, p, t);
    InOrderInfos(nodes, t);
    forall i | 0 <= i < |nodes|
      ensures p(nodes[i]) <==> nodes[i].info in NonFailed(nodes)
    {
      EntryMarks(nodes, i);
    }
    assert Elems(Infos(Select(nodes, p))) == NonFailed(nodes);
    InfosTake(Select(nodes, p), K);
    PrefixIsClosest(Infos(Select(nodes, p)), DistanceTo(t), K);
  }

  // The picks of a round are the ALPHA closest contacts not queried yet.
  lemma AlphaIsClosest(nodes: seq<Entry>, t: Key)
    requires InOrder(nodes, t)
    ensures ClosestOf(AlphaOf(nodes), Known(nodes) - Queried(nodes), DistanceTo(t), ALPHA)
  {
    var p := (e: Entry) => !e.queried;
    SelectedInfos(nodes, p, t);
    InOrderInfos(nodes, t);
    forall i | 0 <= i < |nodes|
      ensures p(nodes[i]) <==> nodes[i].info in Known(nodes) - Queried(nodes)
    {
      EntryMarks(nodes, i);
    }
    assert Elems(Infos(Select(nodes, p))) == Known(nodes) - Queried(nodes);
    PrefixIsClosest(Infos(Select(nodes, p)), DistanceTo(t), ALPHA);
  }

  // ----- recording responses -----

  ghost function Answered(rs: seq<Response>, forValue: bool): set<NodeInfo> {
    set i | 0 <= i < |rs| && rs[i].success && (forValue || rs[i].kind != Some(Value)) :: rs[i].resolver
  }

  ghost function Refused(rs: seq<Response>, forValue: bool): set<NodeInfo> {
    set i | 0 <= i < |rs| && (!rs[i].success || (!forValue && rs[i].kind == Some(Value))) :: rs[i].resolver
  }

  ghost function Reported(rs: seq<Response>, forValue: bool): set<NodeInfo> {
    set i, x | 0 <= i < |rs| && rs[i].success && (forValue || rs[i].kind != Some(Value)) && x in rs[i].kClosest :: x
  }

  // Responses from known contacts, about contacts of a universe in which an id
  // names one contact.
  ghost predicate Sensible(nodes: seq<Entry>, rs: seq<Response>, universe: set<NodeInfo>) {
    && NoDup(Infos(nodes)) && Known(nodes) <= universe && DistinctIds(universe)
    && (forall i | 0 <= i < |rs| :: rs[i].resolver in Known(nodes) && Elems(rs[i].kClosest) <= universe)
  }

  // Buffer b is buffer a with these contacts learnt and these marks set.
  ghost predicate Extends(a: seq<Entry>, b: seq<Entry>, learnt: set<NodeInfo>, queried: set<NodeInfo>,
                          responded: set<NodeInfo>) {
    && Known(b) == Known(a) + learnt
    && Queried(b) == Queried(a) + queried
    && Responded(b) == Responded(a) + responded
  }

  lemma ExtendsTwice(a: seq<Entry>, b: seq<Entry>, c: seq<Entry>, self: NodeInfo,
                     l1: set<NodeInfo>, q1: set<NodeInfo>, r1: set<NodeInfo>,
                     l2: set<NodeInfo>, q2: set<NodeInfo>, r2: set<NodeInfo>)
    requires Extends(a, b, l1 - {self}, q1, r1) && Extends(b, c, l2 - {self}, q2, r2)
    ensures Extends(a, c, l1 + l2 - {self}, q1 + q2, r1 + r2)
  {
  }

  lemma AbsorbSets(nodes: seq<Entry>, self: NodeInfo, r: Response, forValue: bool, universe: set<NodeInfo>)
    requires Sensible(nodes, [r], universe)
    ensures var n := Absorb(nodes, self, r, forValue);
            && NoDup(Infos(n)) && Known(n) <= universe
            && Extends(nodes, n,
                       (if Answers(r, forValue) then Elems(r.kClosest) else {}) - {self},
                       if Answers(r, forValue) then {} else {r.resolver},
                       if Answers(r, forValue) then {r.resolver} else {})
  {
    assert [r][0] == r;
    LearnSets(nodes, self, r.kClosest);
    if Answers(r, forValue) {
      MarkRespondedSets(Learn(nodes, self, r.kClosest), r.resolver);
    } else {
      MarkQueriedSets(nodes, r.resolver);
    }
  }

  // What a batch of responses does to the buffer.
  lemma {:induction false} AbsorbAllSets(nodes: seq<Entry>, self: NodeInfo, rs: seq<Response>, forValue: bool,
                                        universe: set<NodeInfo>)
    requires Sensible(nodes, rs, universe)
    ensures var n := AbsorbAll(nodes, self, rs, forValue);
            && NoDup(Infos(n)) && Known(n) <= universe
            && Extends(nodes, n, Reported(rs, forValue) - {self}, Refused(rs, forValue), Answered(rs, forValue))
  {
    if rs != [] {
      var p, r := rs[..|rs| - 1], rs[|rs| - 1];
      SensiblePrefix(nodes, rs, universe);
      AbsorbAllSets(nodes, self, p, forValue, universe);
      var m := AbsorbAll(nodes, self, p, forValue);
      SensibleLater(nodes, m, rs, universe);
      AbsorbSets(m, self, r, forValue, universe);
      SplitLast(rs, forValue);
      var yes := Answers(r, forValue);
      ExtendsTwice(nodes, m, Absorb(m, self, r, forValue), self,
                   Reported(p, forValue), Refused(p, forValue), Answered(p, forValue),
                   if yes then Elems(r.kClosest) else {},
                   if yes then {} else {r.resolver},
                   if yes then {r.resolver} else {});
    }
  }

  lemma SensiblePrefix(nodes: seq<Entry>, rs: seq<Response>, universe: set<NodeInfo>)
    requires rs != [] && Sensible(nodes, rs, universe)
    ensures Sensible(nodes, rs[..|rs| - 1], universe)
  {
  }

  lemma SensibleLater(nodes: seq<Entry>, later: seq<Entry>, rs: seq<Response>, universe: set<NodeInfo>)
    requires rs != [] && Sensible(nodes, rs, universe)
    requires NoDup(Infos(later)) && Known(nodes) <= Known(later) <= universe
    ensures Sensible(later, [rs[|rs| - 1]], universe)
  {
  }

  lemma SplitLast(rs: seq<Response>, forValue: bool)
    requires rs != []
    ensures var p, r := rs[..|rs| - 1], rs[|rs| - 1];
            && Answered(rs, forValue) == Answered(p, forValue) + (if Answers(r, forValue) then {r.resolver} else {})
            && Refused(rs, forValue) == Refused(p, forValue) + (if Answers(r, forValue) then {} else {r.resolver})
            && Reported(rs, forValue) ==
               Reported(p, forValue) + (if Answers(r, forValue) then Elems(r.kClosest) else {})
  {
  }

  // Responses only add contacts behind those in the buffer.
  lemma {:induction false} LearnBehind(nodes: seq<Entry>, self: NodeInfo, reported: seq<NodeInfo>)
    ensures nodes <= Learn(nodes, self, reported)
    decreases |reported|
  {
    if reported != [] {
      LearnBehind(nodes, self, reported[..|reported| - 1]);
    }
  }

  lemma {:induction false} AbsorbBehind(nodes: seq<Entry>, self: NodeInfo, rs: seq<Response>, forValue: bool)
    ensures Infos(nodes) <= Infos(AbsorbAll(nodes, self, rs, forValue))
    decreases |rs|
  {
    if rs != [] {
      var before, r := AbsorbAll(nodes, self, rs[..|rs| - 1], forValue), rs[|rs| - 1];
      AbsorbBehind(nodes, self, rs[..|rs| - 1], forValue);
      LearnBehind(before, self, r.kClosest);
      SameInfos(before, Absorb(before, self, r, forValue));
    }
  }

  lemma SameInfos(a: seq<Entry>, b: seq<Entry>)
    requires |a| <= |b| && forall i | 0 <= i < |a| :: a[i].info == b[i].info
    ensures Infos(a) <= Infos(b)
  {
  }
}
