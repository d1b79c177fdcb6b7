// The iterative node lookup: the loop of find_node and join_network.
module FindNodes {
  import opened Keys
  import opened Contacts
  import opened Closest
  import opened Lookup
  import opened LookupBuffers
  import opened Rounds

  lemma MetGrows(q: Search, a: set<NodeInfo>, b: set<NodeInfo>)
    ensures Met(q, a + b) == Met(q, a) + (ToldBy(q.net, b) - {q.self})
    ensures Tellers(q.net, a + b) == Tellers(q.net, a) + Tellers(q.net, b)
    ensures Tellers(q.net, a) <= a
  {
  }

  lemma RecordsAll(nodes: seq<Entry>, t: Key, self: NodeInfo, rs: seq<Response>)
    ensures RecordedNodes(nodes, t, self, rs, false) == Sorted(AbsorbAll(nodes, self, rs, false), t)
  {
    assert rs[..|rs|] == rs;
  }

  // Asking known contacts and recording what they say.
  lemma RecordRound(nodes: seq<Entry>, q: Search, resolvers: seq<NodeInfo>)
    requires NoDup(Infos(nodes)) && Known(nodes) <= q.universe
    requires DistinctIds(q.universe) && ToldBy(q.net, q.universe) <= q.universe
    requires Elems(resolvers) <= Known(nodes)
    ensures var r := RecordedNodes(nodes, q.target, q.self, LookupRound(resolvers, q.net, false), false);
            && InOrder(r, q.target) && Known(r) <= q.universe
            && Extends(nodes, r, ToldBy(q.net, Elems(resolvers)) - {q.self},
                       Elems(resolvers) - Tellers(q.net, Elems(resolvers)), Tellers(q.net, Elems(resolvers)))
  {
    var rs := LookupRound(resolvers, q.net, false);
    RoundSensible(nodes, resolvers, q.universe, q.net, false);
    AbsorbAllSets(nodes, q.self, rs, false, q.universe);
    RoundSets(resolvers, q.net);
    RecordsAll(nodes, q.target, q.self, rs);
    SortedSets(AbsorbAll(nodes, q.self, rs, false), q.target);
  }

  // The picks of a round are known and were not asked before.
  lemma PicksAreNew(nodes: seq<Entry>, t: Key)
    requires InOrder(nodes, t)
    ensures Elems(AlphaOf(nodes)) <= Known(nodes) - Queried(nodes)
    ensures NoDup(AlphaOf(nodes))
    ensures AlphaOf(nodes) == [] <==> Known(nodes) <= Queried(nodes)
  {
    AlphaIsClosest(nodes, t);
    IncreasingNoDup(AlphaOf(nodes), DistanceTo(t));
  }

  ghost function AfterPick(nodes: seq<Entry>): seq<Entry> {
    MarkAllQueried(nodes, AlphaOf(nodes))
  }

  ghost function AfterRound(nodes: seq<Entry>, q: Search): seq<Entry> {
    RecordedNodes(AfterPick(nodes), q.target, q.self, LookupRound(AlphaOf(nodes), q.net, false), false)
  }

  lemma PickSets(nodes: seq<Entry>, t: Key)
    requires Proper(nodes) && InOrder(nodes, t)
    ensures Extends(nodes, AfterPick(nodes), {}, Elems(AlphaOf(nodes)), {})
    ensures Infos(AfterPick(nodes)) == Infos(nodes) && InOrder(AfterPick(nodes), t)
  {
    PicksAreNew(nodes, t);
    MarkAllSets(nodes, AlphaOf(nodes));
    SameInfosInOrder(nodes, AfterPick(nodes), t);
  }

  lemma SameInfosInOrder(a: seq<Entry>, b: seq<Entry>, t: Key)
    requires InOrder(a, t) && |a| == |b| && Infos(a) == Infos(b)
    ensures InOrder(b, t)
  {
  }

  // Marking the picks, then recording their answers.
  lemma PickThenRecord(nodes: seq<Entry>, m: seq<Entry>, r: seq<Entry>, picks: set<NodeInfo>, tellers: set<NodeInfo>,
                       learnt: set<NodeInfo>)
    requires Extends(nodes, m, {}, picks, {}) && Extends(m, r, learnt, picks - tellers, tellers)
    ensures Extends(nodes, r, learnt, picks, tellers)
  {
  }

  // A full round leaves the buffer as the definition of Buffered says.
  lemma RoundBuffered(nodes: seq<Entry>, q: Search, asked: set<NodeInfo>)
    requires World(q) && Buffered(nodes, q, asked)
    ensures Buffered(AfterRound(nodes, q), q, asked + Elems(AlphaOf(nodes)))
  {
    var picks := AlphaOf(nodes);
    BufferedProper(nodes, q, asked);
    PicksAreNew(nodes, q.target);
    PickSets(nodes, q.target);
    RecordRound(AfterPick(nodes), q, picks);
    var learnt := ToldBy(q.net, Elems(picks)) - {q.self};
    PickThenRecord(nodes, AfterPick(nodes), AfterRound(nodes, q), Elems(picks), Tellers(q.net, Elems(picks)), learnt);
    MetGrows(q, asked, Elems(picks));
    StillBuffered(nodes, AfterRound(nodes, q), q, asked, Elems(picks));
  }

  lemma StillBuffered(nodes: seq<Entry>, r: seq<Entry>, q: Search, asked: set<NodeInfo>, picks: set<NodeInfo>)
    requires Buffered(nodes, q, asked) && picks <= Known(nodes)
    requires InOrder(r, q.target) && Known(r) <= q.universe
    requires Extends(nodes, r, ToldBy(q.net, picks) - {q.self}, picks, Tellers(q.net, picks))
    ensures Buffered(r, q, asked + picks)
  {
  }

  lemma UnqueriedAreNew(nodes: seq<Entry>, t: Key)
    requires InOrder(nodes, t)
    ensures Elems(UnqueriedResultOf(nodes)) <= Known(nodes) - Queried(nodes)
    ensures NoDup(UnqueriedResultOf(nodes)) && Increasing(UnqueriedResultOf(nodes), DistanceTo(t))
  {
    var p := (e: Entry) => !e.queried;
    var front := Take(nodes, K);
    assert InOrder(front, t);
    SelectedInfos(front, p, t);
    IncreasingNoDup(Infos(Select(front, p)), DistanceTo(t));
    InOrderInfos(nodes, t);
    forall i | 0 <= i < |front| && p(front[i])
      ensures front[i].info in Known(nodes) - Queried(nodes)
    {
      assert front[i] == nodes[i];
      EntryMarks(nodes, i);
    }
  }

  ghost function AfterLastRound(nodes: seq<Entry>, q: Search): seq<Entry> {
    RecordedNodes(nodes, q.target, q.self, LookupRound(UnqueriedResultOf(nodes), q.net, false), false)
  }

  // The last round asks what is left among the first K entries. It marks the
  // silent ones only, so its tellers are missing from the responsive nodes.
  lemma LastRound(nodes: seq<Entry>, q: Search, asked: set<NodeInfo>)
    requires World(q) && Buffered(nodes, q, asked)
    ensures var r := AfterLastRound(nodes, q);
            var all := asked + Elems(UnqueriedResultOf(nodes));
            && InOrder(r, q.target)
            && Known(r) == Met(q, all) <= q.universe
            && NonFailed(r) == Alive(q, all)
            && Queried(r) * Responded(r) == Tellers(q.net, asked)
  {
    var picks := UnqueriedResultOf(nodes);
    BufferedProper(nodes, q, asked);
    UnqueriedAreNew(nodes, q.target);
    RecordRound(nodes, q, picks);
    MetGrows(q, asked, Elems(picks));
    MetGrows(q, Elems(picks), {});
    ClosingSets(nodes, AfterLastRound(nodes, q), q, asked, Elems(picks));
  }

  lemma ClosingSets(nodes: seq<Entry>, r: seq<Entry>, q: Search, asked: set<NodeInfo>, picks: set<NodeInfo>)
    requires Buffered(nodes, q, asked) && picks <= Known(nodes) - asked
    requires Known(r) <= q.universe
    requires Extends(nodes, r, ToldBy(q.net, picks) - {q.self}, picks - Tellers(q.net, picks), Tellers(q.net, picks))
    requires Met(q, asked + picks) == Met(q, asked) + (ToldBy(q.net, picks) - {q.self})
    ensures Known(r) == Met(q, asked + picks) <= q.universe
    ensures NonFailed(r) == Alive(q, asked + picks)
    ensures Queried(r) * Responded(r) == Tellers(q.net, asked)
  {
  }

  // ----- when a round reports a change -----

  // For arbitrary answers of contacts in flight: the result changes exactly
  // when it now holds a contact that was failed or unknown before the round.
  // That contact answered in this round, or was first reported in it.
  lemma ChangeReported(m: seq<Entry>, t: Key, self: NodeInfo, rs: seq<Response>, universe: set<NodeInfo>)
    requires InOrder(m, t) && Sensible(m, rs, universe)
    requires forall i | 0 <= i < |rs| :: rs[i].resolver in Queried(m)
    ensures var r := RecordedNodes(m, t, self, rs, false);
            && (ResultOf(m) == ResultOf(r) <==> Elems(ResultOf(r)) <= NonFailed(m))
            && (forall x | x in ResultOf(r) && x !in NonFailed(m) ::
                  x in Answered(rs, false) || (x in Reported(rs, false) && x !in Known(m)))
            && (forall x | x in ResultOf(r) && x in Answered(rs, false) && x !in Responded(m) ::
                  ResultOf(m) != ResultOf(r))
  {
    AbsorbAllSets(m, self, rs, false, universe);
    RecordsAll(m, t, self, rs);
    SortedSets(AbsorbAll(m, self, rs, false), t);
    GrowthReported(m, RecordedNodes(m, t, self, rs, false), t,
                   Reported(rs, false) - {self}, Refused(rs, false), Answered(rs, false));
  }

  lemma GrowthReported(m: seq<Entry>, r: seq<Entry>, t: Key, learnt: set<NodeInfo>, refused: set<NodeInfo>,
                       answered: set<NodeInfo>)
    requires InOrder(m, t) && InOrder(r, t) && Extends(m, r, learnt, refused, answered)
    requires refused <= Queried(m) && answered <= Queried(m)
    ensures ResultOf(m) == ResultOf(r) <==> Elems(ResultOf(r)) <= NonFailed(m)
    ensures forall x | x in ResultOf(r) && x !in NonFailed(m) :: x in answered || (x in learnt && x !in Known(m))
    ensures forall x | x in ResultOf(r) && x in answered && x !in Responded(m) :: ResultOf(m) != ResultOf(r)
  {
    ResultIsClosest(m, t);
    ResultIsClosest(r, t);
    GrownNonFailed(m, r, learnt, refused, answered);
    assert forall x | x in ResultOf(r) :: x in Elems(ResultOf(r));
    ClosestAfterGrowth(ResultOf(m), ResultOf(r), NonFailed(m), NonFailed(r), DistanceTo(t), K);
  }

  lemma GrownNonFailed(m: seq<Entry>, r: seq<Entry>, learnt: set<NodeInfo>, refused: set<NodeInfo>,
                       answered: set<NodeInfo>)
    requires Extends(m, r, learnt, refused, answered) && refused <= Queried(m) && answered <= Queried(m)
    ensures NonFailed(m) <= NonFailed(r)
    ensures forall x | x in NonFailed(r) && x !in NonFailed(m) :: x in answered || (x in learnt && x !in Known(m))
    ensures forall x | x in answered && x !in Responded(m) :: x !in NonFailed(m)
  {
  }

  // A round in which nobody answers reports no change, whatever contacts are
  // still unasked; so it ends the loop.
  lemma SilentRoundStops(nodes: seq<Entry>, q: Search, asked: set<NodeInfo>)
    requires World(q) && Buffered(nodes, q, asked)
    requires forall x | x in AlphaOf(nodes) :: !q.net(x).Told?
    ensures ResultOf(AfterPick(nodes)) == ResultOf(AfterRound(nodes, q))
  {
    var m, picks := AfterPick(nodes), AlphaOf(nodes);
    var r := AfterRound(nodes, q);
    SilentRoundSets(nodes, q, asked);
    ResultIsClosest(m, q.target);
    ResultIsClosest(r, q.target);
    ClosestUnique(ResultOf(m), ResultOf(r), NonFailed(m), DistanceTo(q.target), K);
  }

  lemma SilentRoundSets(nodes: seq<Entry>, q: Search, asked: set<NodeInfo>)
    requires World(q) && Buffered(nodes, q, asked)
    requires forall x | x in AlphaOf(nodes) :: !q.net(x).Told?
    ensures var m, r := AfterPick(nodes), AfterRound(nodes, q);
            InOrder(m, q.target) && InOrder(r, q.target) && NonFailed(m) == NonFailed(r)
  {
    var m, picks := AfterPick(nodes), AlphaOf(nodes);
    RoundFacts(nodes, q, asked);
    NobodyTells(q.net, picks);
    NothingLearnt(m, AfterRound(nodes, q), Elems(picks), {} - {q.self}, Elems(picks) - {});
  }

  lemma RoundFacts(nodes: seq<Entry>, q: Search, asked: set<NodeInfo>)
    requires World(q) && Buffered(nodes, q, asked)
    ensures var m, r, picks := AfterPick(nodes), AfterRound(nodes, q), Elems(AlphaOf(nodes));
            && InOrder(m, q.target) && InOrder(r, q.target) && picks <= Queried(m)
            && Extends(m, r, ToldBy(q.net, picks) - {q.self}, picks - Tellers(q.net, picks), Tellers(q.net, picks))
  {
    BufferedProper(nodes, q, asked);
    PicksAreNew(nodes, q.target);
    PickSets(nodes, q.target);
    RecordRound(AfterPick(nodes), q, AlphaOf(nodes));
  }

  lemma NobodyTells(net: Net, picks: seq<NodeInfo>)
    requires forall x | x in picks :: !net(x).Told?
    ensures Tellers(net, Elems(picks)) == {} && ToldBy(net, Elems(picks)) == {}
  {
  }

  lemma NothingLearnt(m: seq<Entry>, r: seq<Entry>, picks: set<NodeInfo>, none: set<NodeInfo>, refused: set<NodeInfo>)
    requires none == {} && refused == picks <= Queried(m) && Extends(m, r, none, refused, {})
    ensures NonFailed(m) == NonFailed(r)
  {
  }

  // ----- how the loop ends -----

  // Nothing left to ask: all reachable contacts were met, and the tellers
  // among them are the ones alive.
  lemma ExhaustedIsExact(q: Search, asked: set<NodeInfo>)
    requires Met(q, asked) == asked <= q.universe
    requires forall x | x in asked :: Reachable(x, q)
    ensures Alive(q, asked) == ReachableTellers(q)
  {
    forall x | x in q.universe && Reachable(x, q)
      ensures x in asked
    {
      ReachableIsMet(q, asked, x);
    }
  }

  // The unqueried ones of the first K entries are always results.
  lemma UnqueriedAreResults(nodes: seq<Entry>, t: Key)
    requires InOrder(nodes, t)
    ensures Elems(UnqueriedResultOf(nodes)) <= Elems(ResultOf(nodes))
  {
    var front := Take(Infos(nodes), K);
    InOrderInfos(nodes, t);
    InfosElems(nodes);
    PrefixIsClosest(Infos(nodes), DistanceTo(t), K);
    ResultIsClosest(nodes, t);
    UnqueriedAreNew(nodes, t);
    UnqueriedInFront(nodes);
    forall x | x in Elems(UnqueriedResultOf(nodes))
      ensures x in ResultOf(nodes)
    {
      ClosestOfSubset(front, Known(nodes), ResultOf(nodes), NonFailed(nodes), DistanceTo(t), K, x);
    }
  }

  lemma UnqueriedInFront(nodes: seq<Entry>)
    ensures Elems(UnqueriedResultOf(nodes)) <= Elems(Take(Infos(nodes), K))
  {
    var front, unasked := Take(nodes, K), (e: Entry) => !e.queried;
    SelectKnown(front, unasked);
    InfosElems(Select(front, unasked));
    InfosElems(front);
    InfosTake(nodes, K);
  }

  // So if all results were asked, the last round is empty, and the results have
  // answered.
  lemma NothingLeft(r: seq<Entry>, q: Search, asked: set<NodeInfo>)
    requires World(q) && Buffered(r, q, asked) && Elems(ResultOf(r)) <= asked
    ensures UnqueriedResultOf(r) == []
    ensures Elems(ResultOf(r)) <= Tellers(q.net, asked)
  {
    UnqueriedAreResults(r, q.target);
    UnqueriedAreNew(r, q.target);
    assert Elems(UnqueriedResultOf(r)) == {};
    EmptyElems(UnqueriedResultOf(r));
    BufferedProper(r, q, asked);
    ResultIsClosest(r, q.target);
  }

  // An early stop leaves no result unasked, unless ALPHA contacts were asked
  // and none of them answered.
  lemma StopsSettled(nodes: seq<Entry>, q: Search, asked: set<NodeInfo>)
    requires World(q) && Buffered(nodes, q, asked)
    requires |AlphaOf(nodes)| < ALPHA || exists p | p in AlphaOf(nodes) :: q.net(p).Told?
    requires ResultOf(AfterPick(nodes)) == ResultOf(AfterRound(nodes, q))
    ensures var r, all := AfterRound(nodes, q), asked + Elems(AlphaOf(nodes));
            Elems(ResultOf(r)) <= Tellers(q.net, all) && UnqueriedResultOf(r) == []
  {
    var r, all := AfterRound(nodes, q), asked + Elems(AlphaOf(nodes));
    RoundBuffered(nodes, q, asked);
    if p :| p in AlphaOf(nodes) && q.net(p).Told? {
      AnsweredStop(nodes, q, asked, p);
    } else {
      SilentStop(nodes, q, asked);
    }
    NothingLeft(r, q, all);
  }

  // A pick that answers and stays out of the result is behind all of it, and
  // the candidates that were not picked are behind the pick.
  lemma AnsweredStop(nodes: seq<Entry>, q: Search, asked: set<NodeInfo>, p: NodeInfo)
    requires World(q) && Buffered(nodes, q, asked) && p in AlphaOf(nodes) && q.net(p).Told?
    requires ResultOf(AfterPick(nodes)) == ResultOf(AfterRound(nodes, q))
    ensures Elems(ResultOf(AfterRound(nodes, q))) <= asked
  {
    var r, picks := AfterRound(nodes, q), AlphaOf(nodes);
    ResultSkipsPicks(nodes, q, asked);
    assert p in Elems(picks);
    RoundBuffered(nodes, q, asked);
    AlphaIsClosest(nodes, q.target);
    ResultIsClosest(r, q.target);
    TellerAlive(r, q, asked + Elems(picks), p);
    NoCandidateIn(ResultOf(r), NonFailed(r), K, picks, Known(nodes) - Queried(nodes), ALPHA, DistanceTo(q.target), p);
    forall x | x in Elems(ResultOf(r))
      ensures x in asked
    {
      assert x !in Elems(picks);
    }
  }

  lemma TellerAlive(r: seq<Entry>, q: Search, asked: set<NodeInfo>, p: NodeInfo)
    requires World(q) && Buffered(r, q, asked) && p in asked && q.net(p).Told?
    ensures p in NonFailed(r)
  {
    BufferedProper(r, q, asked);
  }

  // Fewer than ALPHA picks are all candidates; if none answers, nobody is left.
  lemma SilentStop(nodes: seq<Entry>, q: Search, asked: set<NodeInfo>)
    requires World(q) && Buffered(nodes, q, asked) && |AlphaOf(nodes)| < ALPHA
    requires forall p | p in AlphaOf(nodes) :: !q.net(p).Told?
    ensures Elems(ResultOf(AfterRound(nodes, q))) <= asked + Elems(AlphaOf(nodes))
  {
    var r, picks := AfterRound(nodes, q), Elems(AlphaOf(nodes));
    AlphaIsClosest(nodes, q.target);
    IncreasingNoDup(AlphaOf(nodes), DistanceTo(q.target));
    SubsetSize(picks, Known(nodes) - Queried(nodes));
    NobodyTells(q.net, AlphaOf(nodes));
    MetGrows(q, asked, picks);
    RoundBuffered(nodes, q, asked);
    ResultIsClosest(r, q.target);
    AllMetAsked(nodes, r, q, asked, picks);
  }

  lemma AllMetAsked(nodes: seq<Entry>, r: seq<Entry>, q: Search, asked: set<NodeInfo>, picks: set<NodeInfo>)
    requires Buffered(nodes, q, asked) && Buffered(r, q, asked + picks)
    requires picks == Known(nodes) - Queried(nodes) && Met(q, asked + picks) == Met(q, asked) + ({} - {q.self})
    ensures NonFailed(r) <= asked + picks
  {
  }

  lemma ResultSkipsPicks(nodes: seq<Entry>, q: Search, asked: set<NodeInfo>)
    requires World(q) && Buffered(nodes, q, asked)
    requires ResultOf(AfterPick(nodes)) == ResultOf(AfterRound(nodes, q))
    ensures Elems(ResultOf(AfterRound(nodes, q))) <= Known(nodes) - Elems(AlphaOf(nodes))
  {
    var m, r := AfterPick(nodes), AfterRound(nodes, q);
    var picks := Elems(AlphaOf(nodes));
    RoundFacts(nodes, q, asked);
    MetGrows(q, picks, {});
    GrowthReported(m, r, q.target,
                   ToldBy(q.net, picks) - {q.self}, picks - Tellers(q.net, picks), Tellers(q.net, picks));
    InFlight(nodes, q, asked);
  }

  // Between picking and recording, the picks count as failed.
  lemma InFlight(nodes: seq<Entry>, q: Search, asked: set<NodeInfo>)
    requires World(q) && Buffered(nodes, q, asked)
    ensures NonFailed(AfterPick(nodes)) <= Known(nodes) - Elems(AlphaOf(nodes))
  {
    BufferedProper(nodes, q, asked);
    PicksAreNew(nodes, q.target);
    PickSets(nodes, q.target);
    MetGrows(q, asked, {});
  }

  // The contacts that do not answer.
  ghost function Silent(q: Search): set<NodeInfo> {
    set x | x in q.universe && !q.net(x).Told?
  }

  // Not enough of them to fill a round.
  ghost predicate FewSilent(q: Search) {
    |Silent(q)| < ALPHA
  }

  lemma FewSilentPicks(nodes: seq<Entry>, q: Search)
    requires FewSilent(q) && NoDup(AlphaOf(nodes)) && Elems(AlphaOf(nodes)) <= q.universe
    ensures |AlphaOf(nodes)| < ALPHA || exists p | p in AlphaOf(nodes) :: q.net(p).Told?
  {
    var picks := AlphaOf(nodes);
    if forall p | p in picks :: !q.net(p).Told? {
      NoDupCardinality(picks);
      SubsetSize(Elems(picks), Silent(q));
    }
  }

  // The result is a fixed point of asking: each member was asked and answered,
  // and whoever it told of is in the result, was asked and is silent, or is
  // farther than all of a full result.
  ghost predicate Settled(result: seq<NodeInfo>, q: Search, asked: set<NodeInfo>) {
    forall x | x in result ::
      && x in asked && q.net(x).Told?
      && forall y | y in q.net(x).contacts && y != q.self ::
           || y in result || (y in asked && !q.net(y).Told?)
           || (|result| == K && forall z | z in result :: Dist(z.id, q.target) < Dist(y.id, q.target))
  }

  lemma ClosestIsSettled(result: seq<NodeInfo>, q: Search, asked: set<NodeInfo>)
    requires ClosestOf(result, Alive(q, asked), DistanceTo(q.target), K)
    requires Elems(result) <= asked
    ensures Settled(result, q, asked)
  {
    forall x | x in result
      ensures x in asked && q.net(x).Told?
    {
      assert x in Elems(result);
    }
    forall x, y | x in result && y in q.net(x).contacts && y != q.self && y !in result
      ensures || (y in asked && !q.net(y).Told?)
              || (|result| == K && forall z | z in result :: Dist(z.id, q.target) < Dist(y.id, q.target))
    {
      assert y in Met(q, asked);
      if !(y in asked && !q.net(y).Told?) {
        LeftOut(result, Alive(q, asked), q.target, y);
      }
    }
  }

  // A candidate that is not among the K closest is farther than all of them.
  lemma LeftOut(result: seq<NodeInfo>, s: set<NodeInfo>, t: Key, y: NodeInfo)
    requires ClosestOf(result, s, DistanceTo(t), K) && y in s && y !in result
    ensures |result| == K && forall z | z in result :: Dist(z.id, t) < Dist(y.id, t)
  {
    IncreasingNoDup(result, DistanceTo(t));
    SubsetSize(Elems(result), s);
    forall z | z in result
      ensures Dist(z.id, t) < Dist(y.id, t)
    {
      assert DistanceTo(t)(z) < DistanceTo(t)(y);
    }
  }

  // The contacts other than this node that answer.
  ghost function Answering(q: Search): set<NodeInfo> {
    Tellers(q.net, q.universe) - {q.self}
  }

  ghost predicate TellsCloser(q: Search, x: NodeInfo) {
    && q.net(x).Told?
    && exists y | y in q.net(x).contacts :: y in Answering(q) && Dist(y.id, q.target) < Dist(x.id, q.target)
  }

  // The network leads to the target: every contact that answers tells of one
  // that answers and is closer, except the closest, which tells of the next K-1.
  ghost predicate Leads(q: Search, top: seq<NodeInfo>) {
    && top != [] && ClosestOf(top, Answering(q), DistanceTo(q.target), K)
    && (forall x | x in Answering(q) && x != top[0] :: TellsCloser(q, x))
    && q.net(top[0]).Told? && forall y | y in top && y != top[0] :: y in q.net(top[0]).contacts
  }

  // There a settled result is the K closest contacts that answer.
  lemma SettledIsTop(result: seq<NodeInfo>, top: seq<NodeInfo>, q: Search, asked: set<NodeInfo>)
    requires Settled(result, q, asked) && Leads(q, top) && result != []
    requires Increasing(result, DistanceTo(q.target)) && |result| <= K && Elems(result) <= Answering(q)
    ensures result == top
  {
    SettledStartsAtTop(result, top, q, asked);
    assert result[0] in result;
    TellersAnswer(q, top);
    forall y | y in top
      ensures y in result
           || (|result| == K && forall z | z in result :: DistanceTo(q.target)(z) < DistanceTo(q.target)(y))
    {
      assert y in Elems(top);
    }
    ClosestIfNoneMissing(result, top, Answering(q), DistanceTo(q.target), K);
  }

  lemma TellersAnswer(q: Search, top: seq<NodeInfo>)
    requires Elems(top) <= Answering(q)
    ensures forall y | y in top :: q.net(y).Told? && y != q.self
  {
    assert forall y | y in top :: y in Elems(top);
  }

  lemma SettledStartsAtTop(result: seq<NodeInfo>, top: seq<NodeInfo>, q: Search, asked: set<NodeInfo>)
    requires Settled(result, q, asked) && Leads(q, top) && result != []
    requires Increasing(result, DistanceTo(q.target)) && Elems(result) <= Answering(q)
    ensures result[0] == top[0]
  {
    var x := result[0];
    assert x in result && x in Elems(result);
    if x != top[0] {
      assert TellsCloser(q, x);
      var y :| y in q.net(x).contacts && y in Answering(q) && Dist(y.id, q.target) < Dist(x.id, q.target);
      FirstIsClosest(result, DistanceTo(q.target), y);
      assert false;
    }
  }

  lemma FirstIsClosest(result: seq<NodeInfo>, d: NodeInfo -> nat, y: NodeInfo)
    requires result != [] && Increasing(result, d) && d(y) < d(result[0])
    ensures y !in result
  {
  }
}
