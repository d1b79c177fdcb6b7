// The lookup of find_node and join_network as a whole: which contacts a run
// asks is a function of the search, and so is what it returns.
module LookupRuns {
  import opened Keys
  import opened Contacts
  import opened Closest
  import opened Lookup
  import opened LookupBuffers
  import opened Rounds
  import opened FindNodes

  // ----- the run -----

  // The contacts asked in rounds of ALPHA, in order, and the buffer after them.
  datatype Trail = Trail(asked: seq<NodeInfo>, end: seq<Entry>)

  ghost function Start(q: Search): seq<Entry> {
    Sorted(Fresh(q.init), q.target)
  }

  // The rounds from a buffer on: they end when nobody is left to ask, or when
  // the answers of a round leave the result unchanged.
  ghost function RoundsFrom(nodes: seq<Entry>, q: Search, asked: set<NodeInfo>): Trail
    requires World(q) && Buffered(nodes, q, asked)
    decreases |q.universe - asked|
  {
    var picks, next := AlphaOf(nodes), AfterRound(nodes, q);
    if picks == [] then Trail([], nodes)
    else if ResultOf(AfterPick(nodes)) == ResultOf(next) then Trail(picks, next)
    else
      RoundBuffered(nodes, q, asked);
      FewerLeft(nodes, q, asked);
      var rest := RoundsFrom(next, q, asked + Elems(picks));
      Trail(picks + rest.asked, rest.end)
  }

  lemma FewerLeft(nodes: seq<Entry>, q: Search, asked: set<NodeInfo>)
    requires World(q) && Buffered(nodes, q, asked) && AlphaOf(nodes) != []
    ensures |q.universe - (asked + Elems(AlphaOf(nodes)))| < |q.universe - asked|
  {
    PicksAreNew(nodes, q.target);
    var x := AlphaOf(nodes)[0];
    assert x in Elems(AlphaOf(nodes));
    SubsetSize(q.universe - (asked + Elems(AlphaOf(nodes))), q.universe - asked - {x});
  }

  ghost function AlphaRounds(q: Search): Trail
    requires World(q)
  {
    StartBuffered(q);
    RoundsFrom(Start(q), q, {})
  }

  // The closing round asks what is left among the first K entries.
  ghost function ClosingPicks(q: Search): seq<NodeInfo>
    requires World(q)
  {
    UnqueriedResultOf(AlphaRounds(q).end)
  }

  ghost function AllAsked(q: Search): seq<NodeInfo>
    requires World(q)
  {
    AlphaRounds(q).asked + ClosingPicks(q)
  }

  ghost function LookupResult(q: Search): seq<NodeInfo>
    requires World(q)
  {
    ResultOf(AfterLastRound(AlphaRounds(q).end, q))
  }

  ghost function Responsive(q: Search): seq<NodeInfo>
    requires World(q)
  {
    ResponsiveOf(AfterLastRound(AlphaRounds(q).end, q))
  }

  // The universe bounds the number of rounds and nothing else.
  lemma {:induction false} SameRounds(nodes: seq<Entry>, q: Search, other: Search, asked: set<NodeInfo>)
    requires World(q) && World(other) && other == q.(universe := other.universe)
    requires Buffered(nodes, q, asked) && Buffered(nodes, other, asked)
    ensures RoundsFrom(nodes, q, asked) == RoundsFrom(nodes, other, asked)
    decreases |q.universe - asked|
  {
    if AlphaOf(nodes) != [] && ResultOf(AfterPick(nodes)) != ResultOf(AfterRound(nodes, q)) {
      RoundBuffered(nodes, q, asked);
      RoundBuffered(nodes, other, asked);
      FewerLeft(nodes, q, asked);
      SameRounds(AfterRound(nodes, q), q, other, asked + Elems(AlphaOf(nodes)));
    }
  }

  // ----- what the rounds keep -----

  // The contacts asked so far: each once, all reachable, all in the universe.
  ghost predicate Asked(asked: seq<NodeInfo>, q: Search) {
    NoDup(asked) && Elems(asked) <= q.universe && forall x | x in asked :: Reachable(x, q)
  }

  lemma AskMore(asked: seq<NodeInfo>, more: seq<NodeInfo>, q: Search)
    requires Asked(asked, q) && NoDup(more)
    requires Elems(more) <= Met(q, Elems(asked)) - Elems(asked)
    requires Met(q, Elems(asked)) <= q.universe
    ensures Asked(asked + more, q)
    ensures Elems(asked + more) == Elems(asked) + Elems(more)
  {
    var all := asked + more;
    MetReachable(q, Elems(asked));
    assert forall x | x in more :: x in Elems(more);
    assert forall x | x in asked :: x in Elems(asked);
    forall i, j | 0 <= i < j < |all|
      ensures all[i] != all[j]
    {
      if i < |asked| <= j {
        assert all[i] in asked && all[j] in more;
      }
    }
  }

  // Where the rounds end: the buffer is as Buffered says, and if fewer than ALPHA
  // contacts are silent, no result is left unasked.
  ghost predicate RoundsEnd(end: seq<Entry>, q: Search, asked: seq<NodeInfo>) {
    && Asked(asked, q)
    && Buffered(end, q, Elems(asked))
    && (FewSilent(q) ==> Elems(ResultOf(end)) <= Elems(asked))
  }

  // The rounds so far, and those to come.
  ghost function Whole(nodes: seq<Entry>, q: Search, asked: seq<NodeInfo>): Trail
    requires World(q) && Buffered(nodes, q, Elems(asked))
  {
    var rest := RoundsFrom(nodes, q, Elems(asked));
    Trail(asked + rest.asked, rest.end)
  }

  // One turn of the loop.
  lemma WholeStep(nodes: seq<Entry>, q: Search, asked: seq<NodeInfo>)
    requires World(q) && Buffered(nodes, q, Elems(asked)) && Asked(asked, q)
    ensures var picks, next := AlphaOf(nodes), AfterRound(nodes, q);
            && Asked(asked + picks, q) && Buffered(next, q, Elems(asked + picks))
            && Whole(nodes, q, asked) ==
               if picks == [] then Trail(asked, nodes)
               else if ResultOf(AfterPick(nodes)) == ResultOf(next) then Trail(asked + picks, next)
               else Whole(next, q, asked + picks)
    ensures AlphaOf(nodes) != [] ==> |q.universe - Elems(asked + AlphaOf(nodes))| < |q.universe - Elems(asked)|
  {
    var picks, next := AlphaOf(nodes), AfterRound(nodes, q);
    OneMoreRound(nodes, q, asked);
    RoundsStep(nodes, q, Elems(asked), Elems(asked + picks));
    if picks != [] {
      FewerLeft(nodes, q, Elems(asked));
    }
    Regroup(asked, picks, RoundsFrom(next, q, Elems(asked + picks)).asked);
  }

  lemma RoundsStep(nodes: seq<Entry>, q: Search, asked: set<NodeInfo>, all: set<NodeInfo>)
    requires World(q) && Buffered(nodes, q, asked)
    requires all == asked + Elems(AlphaOf(nodes)) && Buffered(AfterRound(nodes, q), q, all)
    ensures var picks, next := AlphaOf(nodes), AfterRound(nodes, q);
            RoundsFrom(nodes, q, asked) ==
              if picks == [] then Trail([], nodes)
              else if ResultOf(AfterPick(nodes)) == ResultOf(next) then Trail(picks, next)
              else Trail(picks + RoundsFrom(next, q, all).asked, RoundsFrom(next, q, all).end)
  {
  }

  lemma {:induction false} RoundsKeep(nodes: seq<Entry>, q: Search, asked: seq<NodeInfo>)
    requires World(q) && Buffered(nodes, q, Elems(asked)) && Asked(asked, q)
    ensures var w := Whole(nodes, q, asked);
            RoundsEnd(w.end, q, w.asked)
    decreases |q.universe - Elems(asked)|
  {
    var picks, next := AlphaOf(nodes), AfterRound(nodes, q);
    WholeStep(nodes, q, asked);
    if picks == [] {
      PicksAreNew(nodes, q.target);
      NobodyLeft(nodes, q, Elems(asked));
    } else if ResultOf(AfterPick(nodes)) != ResultOf(next) {
      RoundsKeep(next, q, asked + picks);
    } else if FewSilent(q) {
      StopsAsked(nodes, q, asked);
    }
  }

  lemma StopsAsked(nodes: seq<Entry>, q: Search, asked: seq<NodeInfo>)
    requires World(q) && Buffered(nodes, q, Elems(asked)) && FewSilent(q)
    requires ResultOf(AfterPick(nodes)) == ResultOf(AfterRound(nodes, q))
    ensures Elems(ResultOf(AfterRound(nodes, q))) <= Elems(asked + AlphaOf(nodes))
  {
    PicksAreNew(nodes, q.target);
    FewSilentPicks(nodes, q);
    StopsSettled(nodes, q, Elems(asked));
    ElemsOfSum(asked, AlphaOf(nodes));
  }

  lemma OneMoreRound(nodes: seq<Entry>, q: Search, asked: seq<NodeInfo>)
    requires World(q) && Buffered(nodes, q, Elems(asked)) && Asked(asked, q)
    ensures var all := asked + AlphaOf(nodes);
            && Elems(all) == Elems(asked) + Elems(AlphaOf(nodes))
            && Asked(all, q) && Buffered(AfterRound(nodes, q), q, Elems(all))
  {
    PicksAreNew(nodes, q.target);
    AskMore(asked, AlphaOf(nodes), q);
    RoundBuffered(nodes, q, Elems(asked));
  }

  lemma NobodyLeft(nodes: seq<Entry>, q: Search, asked: set<NodeInfo>)
    requires Buffered(nodes, q, asked) && Known(nodes) <= Queried(nodes)
    ensures Elems(ResultOf(nodes)) <= asked
  {
    ResultIsClosest(nodes, q.target);
  }

  lemma StartWhole(q: Search)
    requires World(q)
    ensures Buffered(Start(q), q, Elems([])) && Asked([], q)
    ensures Whole(Start(q), q, []) == AlphaRounds(q)
  {
    StartBuffered(q);
    FromNone(AlphaRounds(q).asked);
  }

  lemma AlphaRoundsEnd(q: Search)
    requires World(q)
    ensures RoundsEnd(AlphaRounds(q).end, q, AlphaRounds(q).asked)
  {
    StartWhole(q);
    RoundsKeep(Start(q), q, []);
  }

  // ----- the first round -----

  // If there are at most ALPHA initial contacts and one of them answers, the first
  // round asks them all, and the lookup goes on.
  lemma FirstRound(q: Search, s: set<NodeInfo>)
    requires World(q) && Elems(q.init) == s && |q.init| <= ALPHA && exists x | x in s :: q.net(x).Told?
    ensures Buffered(Start(q), q, {}) && Elems(AlphaOf(Start(q))) == s
    ensures Buffered(AfterRound(Start(q), q), q, s)
    ensures ResultOf(AfterPick(Start(q))) != ResultOf(AfterRound(Start(q), q))
  {
    var nodes := Start(q);
    StartBuffered(q);
    PicksAll(nodes, q, s);
    RoundBuffered(nodes, q, {});
    AddToNone(s);
    NoResult(nodes, q);
    SomeResult(AfterRound(nodes, q), q, s);
  }

  lemma AddToNone<T>(s: set<T>)
    ensures {} + s == s
  {
  }

  lemma PicksAll(nodes: seq<Entry>, q: Search, s: set<NodeInfo>)
    requires World(q) && Buffered(nodes, q, {}) && Elems(q.init) == s && |q.init| <= ALPHA
    ensures Known(nodes) == s && Elems(AlphaOf(nodes)) == s
  {
    assert Met(q, {}) == s;
    AlphaIsClosest(nodes, q.target);
    assert Known(nodes) - Queried(nodes) == s;
    AllPicked(AlphaOf(nodes), q.init, s, DistanceTo(q.target));
  }

  lemma AllPicked(picks: seq<NodeInfo>, init: seq<NodeInfo>, s: set<NodeInfo>, d: NodeInfo -> nat)
    requires ClosestOf(picks, s, d, ALPHA) && Elems(init) == s && NoDup(init) && |init| <= ALPHA
    ensures Elems(picks) == s
  {
    NoDupCardinality(init);
    IncreasingNoDup(picks, d);
    SubsetSize(Elems(picks), s);
  }

  lemma NoResult(nodes: seq<Entry>, q: Search)
    requires World(q) && Buffered(nodes, q, {}) && Elems(AlphaOf(nodes)) == Known(nodes)
    ensures ResultOf(AfterPick(nodes)) == []
  {
    InFlight(nodes, q, {});
    RoundFacts(nodes, q, {});
    ResultIsClosest(AfterPick(nodes), q.target);
    assert NonFailed(AfterPick(nodes)) == {};
  }

  lemma SomeResult(nodes: seq<Entry>, q: Search, asked: set<NodeInfo>)
    requires World(q) && Buffered(nodes, q, asked) && exists x | x in asked :: q.net(x).Told?
    ensures ResultOf(nodes) != []
  {
    var x :| x in asked && q.net(x).Told?;
    BufferedProper(nodes, q, asked);
    ResultIsClosest(nodes, q.target);
    assert x in Alive(q, asked);
  }

  lemma MetOne(q: Search, a: NodeInfo, told: seq<NodeInfo>)
    requires q.init == [a] && q.net(a) == Told(told) && q.self !in told
    ensures Met(q, {a}) == {a} + Elems(told) && Elems(q.init) == {a}
  {
  }

  // ----- what a lookup returns -----

  // The result is the K closest of all contacts met that are not known to be
  // silent. Nobody was asked twice, and only reachable contacts were.
  lemma ResultOfAllMet(q: Search)
    requires World(q)
    ensures Asked(AllAsked(q), q)
    ensures Elems(AllAsked(q)) <= Met(q, Elems(AllAsked(q))) <= q.universe
    ensures ClosestOf(LookupResult(q), Alive(q, Elems(AllAsked(q))), DistanceTo(q.target), K)
  {
    var nodes, before := AlphaRounds(q).end, AlphaRounds(q).asked;
    AlphaRoundsEnd(q);
    UnqueriedAreNew(nodes, q.target);
    LastRound(nodes, q, Elems(before));
    AskMore(before, ClosingPicks(q), q);
    MetGrows(q, Elems(before), Elems(ClosingPicks(q)));
    ResultIsClosest(AfterLastRound(nodes, q), q.target);
  }

  // So its members are reachable, are not this node, and answered if asked.
  lemma ResultMembers(q: Search)
    requires World(q)
    ensures forall x | x in LookupResult(q) ::
              && x in q.universe && x != q.self && Reachable(x, q)
              && (x in AllAsked(q) ==> q.net(x).Told?)
  {
    var asked := AllAsked(q);
    ResultOfAllMet(q);
    MetReachable(q, Elems(asked));
    forall x | x in LookupResult(q)
      ensures x in q.universe && x != q.self && Reachable(x, q) && (x in asked ==> q.net(x).Told?)
    {
      assert x in Elems(LookupResult(q));
      assert x in Met(q, Elems(asked));
      if x in asked {
        assert x in Elems(asked);
      }
    }
  }

  // What goes into the routing table: exactly the contacts that answered
  // before the closing round, nearest first.
  lemma ResponsiveAnswered(q: Search)
    requires World(q)
    ensures Elems(Responsive(q)) == Tellers(q.net, Elems(AlphaRounds(q).asked))
    ensures Increasing(Responsive(q), DistanceTo(q.target))
  {
    var nodes := AlphaRounds(q).end;
    AlphaRoundsEnd(q);
    LastRound(nodes, q, Elems(AlphaRounds(q).asked));
    ResponsiveSet(AfterLastRound(nodes, q), q.target);
  }

  lemma ResponsiveSet(nodes: seq<Entry>, t: Key)
    requires InOrder(nodes, t)
    ensures Elems(ResponsiveOf(nodes)) == Queried(nodes) * Responded(nodes)
    ensures Increasing(ResponsiveOf(nodes), DistanceTo(t))
  {
    var p := (e: Entry) => e.queried && e.responded;
    SelectedInfos(nodes, p, t);
    InOrderInfos(nodes, t);
    forall i | 0 <= i < |nodes|
      ensures p(nodes[i]) <==> nodes[i].info in Queried(nodes) * Responded(nodes)
    {
      EntryMarks(nodes, i);
    }
  }

  // ----- when the result is exact -----

  // Reachable contacts that would answer but were never met.
  ghost function Missed(q: Search): set<NodeInfo>
    requires World(q)
  {
    ReachableTellers(q) - Met(q, Elems(AllAsked(q)))
  }

  // Contacts that were met and not asked, and would not answer.
  ghost function Untested(q: Search, asked: set<NodeInfo>): set<NodeInfo> {
    set x | x in Met(q, asked) - asked && !q.net(x).Told?
  }

  // What stands between a run and the exact result.
  ghost function Lost(q: Search): set<NodeInfo>
    requires World(q)
  {
    Missed(q) + Untested(q, Elems(AllAsked(q)))
  }

  // The contacts met, and not known to be silent, that are closer than that.
  ghost function Ahead(q: Search): set<NodeInfo>
    requires World(q)
  {
    AheadOf(Alive(q, Elems(AllAsked(q))), Lost(q), DistanceTo(q.target))
  }

  // The lookup finds the K closest reachable contacts that answer if and only
  // if nobody is lost, or K contacts met are closer than all who are.
  lemma ExactIff(q: Search)
    requires World(q)
    ensures ClosestOf(LookupResult(q), ReachableTellers(q), DistanceTo(q.target), K) <==>
              Lost(q) == {} || |Ahead(q)| >= K
  {
    ResultOfAllMet(q);
    LostIsDifference(q);
    SameClosestIff(LookupResult(q), Alive(q, Elems(AllAsked(q))), ReachableTellers(q), DistanceTo(q.target), K);
  }

  lemma LostIsDifference(q: Search)
    requires World(q)
    ensures var alive, wanted := Alive(q, Elems(AllAsked(q))), ReachableTellers(q);
            Lost(q) == (wanted - alive) + (alive - wanted)
  {
    MetInReach(q);
    MissedOrAlive(q, Elems(AllAsked(q)));
    AliveOrUntested(q, Elems(AllAsked(q)));
  }

  lemma MetInReach(q: Search)
    requires World(q)
    ensures Met(q, Elems(AllAsked(q))) <= q.universe
    ensures forall x | x in Met(q, Elems(AllAsked(q))) :: Reachable(x, q)
  {
    ResultOfAllMet(q);
    assert forall x | x in Elems(AllAsked(q)) :: x in AllAsked(q);
    MetReachable(q, Elems(AllAsked(q)));
  }

  lemma MissedOrAlive(q: Search, asked: set<NodeInfo>)
    ensures ReachableTellers(q) - Alive(q, asked) == ReachableTellers(q) - Met(q, asked)
  {
  }

  lemma AliveOrUntested(q: Search, asked: set<NodeInfo>)
    requires Met(q, asked) <= q.universe && forall x | x in Met(q, asked) :: Reachable(x, q)
    ensures Alive(q, asked) - ReachableTellers(q) == Untested(q, asked)
  {
  }

  // In particular a lookup that asked everybody it met is exact.
  lemma AllAskedIsExact(q: Search)
    requires World(q) && Met(q, Elems(AllAsked(q))) == Elems(AllAsked(q))
    ensures ClosestOf(LookupResult(q), ReachableTellers(q), DistanceTo(q.target), K)
  {
    ResultOfAllMet(q);
    forall x | x in Elems(AllAsked(q))
      ensures Reachable(x, q)
    {
      assert x in AllAsked(q);
    }
    ExhaustedIsExact(q, Elems(AllAsked(q)));
  }

  // What the closing round adds: the first K entries have all been asked. So a
  // result that never answered was first reported in the closing round, unless
  // one of those K entries is silent and made room for it.
  lemma ClosingRound(q: Search)
    requires World(q)
    ensures Elems(Infos(Take(AlphaRounds(q).end, K))) <= Elems(AllAsked(q))
    ensures Increasing(ClosingPicks(q), DistanceTo(q.target))
    ensures Elems(ClosingPicks(q)) == Elems(Infos(Take(AlphaRounds(q).end, K))) - Elems(AlphaRounds(q).asked)
    ensures forall x | x in LookupResult(q) && x in Met(q, Elems(AlphaRounds(q).asked)) && x !in AllAsked(q) ::
              exists z | z in Infos(Take(AlphaRounds(q).end, K)) :: !q.net(z).Told?
  {
    var nodes, asked := AlphaRounds(q).end, AllAsked(q);
    AlphaRoundsEnd(q);
    ResultOfAllMet(q);
    FrontAsked(nodes, q, AlphaRounds(q).asked);
    ClosingExactly(nodes, q, AlphaRounds(q).asked);
    forall x | x in LookupResult(q) && x in Met(q, Elems(AlphaRounds(q).asked)) && x !in asked
      ensures exists z | z in Infos(Take(nodes, K)) :: !q.net(z).Told?
    {
      assert x in Elems(LookupResult(q)) && x !in Elems(asked);
      RoomWasMade(nodes, q, Elems(asked), LookupResult(q), x);
    }
  }

  // Exactly when every result has answered: nobody met is left unasked, or K
  // contacts that answered are closer than all who are.
  lemma AllAnsweredIff(q: Search)
    requires World(q)
    ensures var asked := Elems(AllAsked(q));
            var heard, unasked := Tellers(q.net, asked), Met(q, asked) - asked;
            Elems(LookupResult(q)) <= heard <==>
              unasked == {} || |AheadOf(heard, unasked, DistanceTo(q.target))| >= K
  {
    var asked := Elems(AllAsked(q));
    ResultOfAllMet(q);
    HeardOrUnasked(q, asked);
    ClosestInPartIff(LookupResult(q), Alive(q, asked), Tellers(q.net, asked), DistanceTo(q.target), K);
  }

  lemma HeardOrUnasked(q: Search, asked: set<NodeInfo>)
    requires asked <= Met(q, asked)
    ensures Tellers(q.net, asked) <= Alive(q, asked)
    ensures Alive(q, asked) - Tellers(q.net, asked) == Met(q, asked) - asked
  {
  }

  lemma FrontAsked(nodes: seq<Entry>, q: Search, before: seq<NodeInfo>)
    requires Buffered(nodes, q, Elems(before))
    ensures Elems(Infos(Take(nodes, K))) <= Elems(before + UnqueriedResultOf(nodes))
  {
    var front, unasked := Take(nodes, K), (e: Entry) => !e.queried;
    InOrderInfos(nodes, q.target);
    SelectElems(front, unasked);
    forall i | 0 <= i < |front|
      ensures front[i].info in before + UnqueriedResultOf(nodes)
    {
      EntryMarks(nodes, i);
      if unasked(front[i]) {
        assert front[i] in Select(front, unasked);
        var j :| 0 <= j < |Select(front, unasked)| && Select(front, unasked)[j] == front[i];
        assert UnqueriedResultOf(nodes)[j] == front[i].info;
      } else {
        assert front[i].info in Elems(before);
      }
    }
  }

  lemma ClosingExactly(nodes: seq<Entry>, q: Search, before: seq<NodeInfo>)
    requires Buffered(nodes, q, Elems(before))
    ensures Increasing(UnqueriedResultOf(nodes), DistanceTo(q.target))
    ensures Elems(UnqueriedResultOf(nodes)) == Elems(Infos(Take(nodes, K))) - Elems(before)
  {
    FrontAsked(nodes, q, before);
    UnqueriedAreNew(nodes, q.target);
    UnqueriedInFront(nodes);
    InfosTake(nodes, K);
    ElemsOfSum(before, UnqueriedResultOf(nodes));
  }

  lemma RoomWasMade(nodes: seq<Entry>, q: Search, all: set<NodeInfo>, result: seq<NodeInfo>, x: NodeInfo)
    requires InOrder(nodes, q.target) && Known(nodes) <= Met(q, all)
    requires ClosestOf(result, Alive(q, all), DistanceTo(q.target), K)
    requires Elems(Infos(Take(nodes, K))) <= all && x in Known(nodes) && x in result && x !in all
    ensures exists z | z in Infos(Take(nodes, K)) :: !q.net(z).Told?
  {
    var front := Infos(Take(nodes, K));
    if forall z | z in front :: q.net(z).Told? {
      InOrderInfos(nodes, q.target);
      InfosElems(nodes);
      InfosTake(nodes, K);
      assert Elems(front) <= Known(nodes);
      assert Elems(front) <= Alive(q, all);
      BehindFullFront(Infos(nodes), K, DistanceTo(q.target), result, Alive(q, all), x);
    }
  }

  // ----- when fewer than ALPHA contacts are silent -----

  // Nothing is left for the closing round, every result has answered, and the
  // result is a fixed point of asking. With ALPHA silent contacts none of this
  // need hold: a round can then ask silent contacts only, and end the loop.
  lemma FewSilentSettles(q: Search)
    requires World(q) && FewSilent(q)
    ensures ClosingPicks(q) == []
    ensures Elems(LookupResult(q)) <= Tellers(q.net, Elems(AllAsked(q)))
    ensures Settled(LookupResult(q), q, Elems(AllAsked(q)))
  {
    AlphaRoundsEnd(q);
    NothingLeft(AlphaRounds(q).end, q, Elems(AlphaRounds(q).asked));
    ResultOfAllMet(q);
    Regroup(AlphaRounds(q).asked, [], []);
    SettledEnd(AlphaRounds(q).end, q, AlphaRounds(q).asked, LookupResult(q));
  }

  lemma SettledEnd(nodes: seq<Entry>, q: Search, asked: seq<NodeInfo>, result: seq<NodeInfo>)
    requires World(q) && Buffered(nodes, q, Elems(asked)) && Elems(ResultOf(nodes)) <= Tellers(q.net, Elems(asked))
    requires ClosestOf(result, Alive(q, Elems(asked)), DistanceTo(q.target), K)
    ensures Elems(result) <= Tellers(q.net, Elems(asked)) && Settled(result, q, Elems(asked))
  {
    BufferedProper(nodes, q, Elems(asked));
    ResultIsClosest(nodes, q.target);
    ClosestUnique(result, ResultOf(nodes), Alive(q, Elems(asked)), DistanceTo(q.target), K);
    ClosestIsSettled(result, q, Elems(asked));
  }

  // Where the network leads to the target, a lookup returns exactly the K closest
  // contacts that answer, however early its loop stops, from any start that has
  // a contact that answers.
  lemma LedLookup(q: Search, top: seq<NodeInfo>)
    requires World(q) && FewSilent(q) && Leads(q, top) && exists x | x in q.init :: q.net(x).Told?
    ensures LookupResult(q) == top
  {
    var x :| x in q.init && q.net(x).Told?;
    var asked := Elems(AllAsked(q));
    FewSilentSettles(q);
    ResultOfAllMet(q);
    MetOthers(q, asked);
    HeardAnswer(q, asked, x);
    SettledIsTop(LookupResult(q), top, q, asked);
  }

  lemma HeardAnswer(q: Search, asked: set<NodeInfo>, x: NodeInfo)
    requires asked <= Met(q, asked) <= q.universe - {q.self} && x in q.init && q.net(x).Told?
    ensures Tellers(q.net, asked) <= Answering(q) && x in Alive(q, asked)
  {
    assert x in Elems(q.init);
  }

  lemma MetOthers(q: Search, asked: set<NodeInfo>)
    requires World(q) && Met(q, asked) <= q.universe
    ensures Elems(q.init) <= Met(q, asked) <= q.universe - {q.self}
  {
  }

  // If at most K reachable contacts answer, a lookup returns them all.
  lemma FewTellersExact(q: Search)
    requires World(q) && FewSilent(q) && |ReachableTellers(q)| <= K
    ensures ClosestOf(LookupResult(q), ReachableTellers(q), DistanceTo(q.target), K)
    ensures Elems(LookupResult(q)) == ReachableTellers(q)
  {
    var asked := Elems(AllAsked(q));
    FewSilentSettles(q);
    ResultOfAllMet(q);
    ResultMembers(q);
    HeardReachable(q, LookupResult(q));
    IncreasingNoDup(LookupResult(q), DistanceTo(q.target));
    SubsetSize(Elems(LookupResult(q)), ReachableTellers(q));
    if |LookupResult(q)| < K {
      AllOfFew(q, LookupResult(q), asked);
      AllAskedIsExact(q);
    }
  }

  lemma HeardReachable(q: Search, result: seq<NodeInfo>)
    requires forall x | x in result :: x in q.universe && Reachable(x, q)
    requires Elems(result) <= Tellers(q.net, q.universe)
    ensures Elems(result) <= ReachableTellers(q)
  {
  }

  lemma AllOfFew(q: Search, result: seq<NodeInfo>, asked: set<NodeInfo>)
    requires ClosestOf(result, Alive(q, asked), DistanceTo(q.target), K) && |result| < K
    requires asked <= Met(q, asked) && Elems(result) <= asked
    ensures Met(q, asked) == asked
  {
    IncreasingNoDup(result, DistanceTo(q.target));
    SubsetSize(Elems(result), Alive(q, asked));
  }

  // ----- the code -----

  // The rounds with ALPHA resolvers at a time; `asked` collects them.
  method RunRounds(buffer: LookupBuffer, net: Net, ghost q: Search) returns (ghost asked: seq<NodeInfo>)
    requires World(q) && q.target == buffer.target && q.net == net && q.self == buffer.thisNode
    requires buffer.nodes == Start(q)
    modifies buffer
    ensures Trail(asked, buffer.nodes) == AlphaRounds(q)
  {
    StartWhole(q);
    asked := [];
    while true
      invariant Buffered(buffer.nodes, q, Elems(asked)) && Asked(asked, q)
      invariant Whole(buffer.nodes, q, asked) == AlphaRounds(q)
      decreases |q.universe - Elems(asked)|
    {
      WholeStep(buffer.nodes, q, asked);
      var resolvers := buffer.GetAlphaUnqueriedNodes();
      if resolvers == [] {
        return;
      }
      var responses := LookupRound(resolvers, net, false);
      var goOn := buffer.RecordLookupRoundResponses(responses, false);
      asked := asked + resolvers;
      if !goOn {
        return;
      }
    }
  }

  // The lookup from given initial resolvers: the run above, and what it means.
  method RunLookup(t: Key, init: seq<NodeInfo>, self: NodeInfo, net: Net, ghost universe: set<NodeInfo>)
    returns (result: seq<NodeInfo>, responsive: seq<NodeInfo>, ghost asked: seq<NodeInfo>)
    requires World(Search(t, universe, net, init, self))
    ensures var q := Search(t, universe, net, init, self);
            result == LookupResult(q) && responsive == Responsive(q) && asked == AllAsked(q)
    // nobody is asked twice, and only reachable contacts are asked
    ensures Asked(asked, Search(t, universe, net, init, self))
    // the result is the K closest of all contacts met that are not known to be silent
    ensures ClosestOf(result, Alive(Search(t, universe, net, init, self), Elems(asked)), DistanceTo(t), K)
    // it is exact if and only if nobody is lost who could matter; so if everybody met was asked
    ensures var q := Search(t, universe, net, init, self);
            && (ClosestOf(result, ReachableTellers(q), DistanceTo(t), K) <==> Lost(q) == {} || |Ahead(q)| >= K)
            && (Met(q, Elems(asked)) == Elems(asked) ==> ClosestOf(result, ReachableTellers(q), DistanceTo(t), K))
    // if fewer than ALPHA contacts are silent, it is a fixed point of asking
    ensures var q := Search(t, universe, net, init, self);
            FewSilent(q) ==> Settled(result, q, Elems(asked))
    // and then, where the network leads to the target, it is the K closest that answer
    ensures var q := Search(t, universe, net, init, self);
            FewSilent(q) && (exists x | x in init :: net(x).Told?) ==> forall top | Leads(q, top) :: result == top
  {
    ghost var q := Search(t, universe, net, init, self);
    var buffer := new LookupBuffer(t, init, self);
    asked := RunRounds(buffer, net, q);
    var resolvers := UnqueriedResultOf(buffer.nodes);
    var responses := LookupRound(resolvers, net, false);
    var _ := buffer.RecordLookupRoundResponses(responses, false);
    asked := asked + resolvers;
    result := ResultOf(buffer.nodes);
    responsive := ResponsiveOf(buffer.nodes);
    Means(q);
  }

  lemma Means(q: Search)
    requires World(q)
    ensures Asked(AllAsked(q), q)
    ensures ClosestOf(LookupResult(q), Alive(q, Elems(AllAsked(q))), DistanceTo(q.target), K)
    ensures ClosestOf(LookupResult(q), ReachableTellers(q), DistanceTo(q.target), K) <==>
              Lost(q) == {} || |Ahead(q)| >= K
    ensures Met(q, Elems(AllAsked(q))) == Elems(AllAsked(q)) ==>
              ClosestOf(LookupResult(q), ReachableTellers(q), DistanceTo(q.target), K)
    ensures FewSilent(q) ==> Settled(LookupResult(q), q, Elems(AllAsked(q)))
    ensures FewSilent(q) && (exists x | x in q.init :: q.net(x).Told?) ==>
              forall top | Leads(q, top) :: LookupResult(q) == top
  {
    ResultOfAllMet(q);
    ExactIff(q);
    if Met(q, Elems(AllAsked(q))) == Elems(AllAsked(q)) {
      AllAskedIsExact(q);
    }
    if FewSilent(q) {
      FewSilentSettles(q);
      if exists x | x in q.init :: q.net(x).Told? {
        forall top | Leads(q, top)
          ensures LookupResult(q) == top
        {
          LedLookup(q, top);
        }
      }
    }
  }
}
