// What find_storer learns in its rounds, and when it finds a holder.
module StorerRuns {
  import opened Keys
  import opened Contacts
  import opened Closest
  import opened Common
  import opened Lookup
  import opened LookupBuffers
  import opened Rounds
  import opened FindNodes
  import opened LookupRuns
  import opened FindStorers

  // ----- rounds without a holder are those of find_node -----

  lemma SameResponses(xs: seq<NodeInfo>, net: Net)
    requires !SomeHolds(xs, net)
    ensures LookupRound(xs, net, true) == LookupRound(xs, net, false)
    ensures forall i | 0 <= i < |xs| :: !IsValue(LookupRound(xs, net, true)[i])
  {
    assert forall i | 0 <= i < |xs| :: xs[i] in xs;
  }

  lemma {:induction false} SameAbsorbed(nodes: seq<Entry>, self: NodeInfo, rs: seq<Response>)
    requires forall i | 0 <= i < |rs| :: !IsValue(rs[i])
    ensures AbsorbAll(nodes, self, rs, true) == AbsorbAll(nodes, self, rs, false)
    decreases |rs|
  {
    if rs != [] {
      SameAbsorbed(nodes, self, rs[..|rs| - 1]);
    }
  }

  lemma ValueRoundIsRound(nodes: seq<Entry>, q: Search)
    requires !SomeHolds(AlphaOf(nodes), q.net)
    ensures AfterValueRound(nodes, q) == AfterRound(nodes, q)
  {
    var rs := LookupRound(AlphaOf(nodes), q.net, true);
    SameResponses(AlphaOf(nodes), q.net);
    CutByHolder(AlphaOf(nodes), q.net);
    SameAbsorbed(AfterPick(nodes), q.self, rs);
    assert rs[..|rs|] == rs;
  }

  lemma {:induction false} RoundsAgree(nodes: seq<Entry>, q: Search, asked: set<NodeInfo>, last: seq<NodeInfo>)
    requires World(q) && Buffered(nodes, q, asked) && Searching(nodes, q, asked)
    ensures var v, r := ValueRoundsFrom(nodes, q, asked, last), RoundsFrom(nodes, q, asked);
            && (SomeHolds(v.asked, q.net) <==> SomeHolds(r.asked, q.net))
            && (!SomeHolds(v.asked, q.net) ==> Trail(v.asked, v.end) == r)
    decreases |q.universe - asked|
  {
    var picks, next, all := AlphaOf(nodes), AfterValueRound(nodes, q), asked + Elems(AlphaOf(nodes));
    ValueRoundSearching(nodes, q, asked);
    RoundBuffered(nodes, q, asked);
    ValueStep(nodes, q, asked, last, all);
    RoundsStep(nodes, q, asked, all);
    if picks != [] && !SomeHolds(picks, q.net) {
      ValueRoundIsRound(nodes, q);
      if GoesOn(nodes, q) {
        FewerLeft(nodes, q, asked);
        RoundsAgree(next, q, all, picks);
        HoldsInSum(picks, ValueRoundsFrom(next, q, all, picks).asked, q.net);
        HoldsInSum(picks, RoundsFrom(next, q, all).asked, q.net);
      }
    } else if picks != [] {
      StartsWith(nodes, q, asked, last);
    }
  }

  lemma HoldsInSum(a: seq<NodeInfo>, b: seq<NodeInfo>, net: Net)
    ensures SomeHolds(a + b, net) <==> SomeHolds(a, net) || SomeHolds(b, net)
  {
    assert forall x :: x in a + b <==> x in a || x in b;
  }

  // Both runs ask the first picks.
  lemma StartsWith(nodes: seq<Entry>, q: Search, asked: set<NodeInfo>, last: seq<NodeInfo>)
    requires World(q) && Buffered(nodes, q, asked) && Searching(nodes, q, asked) && AlphaOf(nodes) != []
    requires SomeHolds(AlphaOf(nodes), q.net)
    ensures SomeHolds(ValueRoundsFrom(nodes, q, asked, last).asked, q.net)
    ensures SomeHolds(RoundsFrom(nodes, q, asked).asked, q.net)
  {
    var picks := AlphaOf(nodes);
    HoldsInFront(picks, ValueRoundsFrom(nodes, q, asked, last).asked, q.net);
    HoldsInFront(picks, RoundsFrom(nodes, q, asked).asked, q.net);
  }

  lemma HoldsInFront(a: seq<NodeInfo>, b: seq<NodeInfo>, net: Net)
    requires SomeHolds(a, net)
    ensures a <= b ==> SomeHolds(b, net)
  {
    var x :| x in a && net(x).Holds?;
    assert a <= b ==> x in b[..|a|];
  }

  // A search asks a holder in its rounds if and only if the node lookup would;
  // if it asks none, its rounds are those of the node lookup.
  lemma SearchIsLookup(q: Search)
    requires World(q)
    ensures SomeHolds(ValueRounds(q).asked, q.net) <==> SomeHolds(AlphaRounds(q).asked, q.net)
    ensures !SomeHolds(ValueRounds(q).asked, q.net) ==>
              Trail(ValueRounds(q).asked, ValueRounds(q).end) == AlphaRounds(q)
  {
    StartBuffered(q);
    StartSearching(q);
    RoundsAgree(Start(q), q, {}, []);
  }

  // So the buffer then holds, in order, exactly the contacts met, with the asked
  // ones queried and the tellers responded.
  lemma SearchWithoutHolder(q: Search)
    requires World(q) && !SomeHolds(ValueRounds(q).asked, q.net)
    ensures Buffered(ValueRounds(q).end, q, Elems(ValueRounds(q).asked))
  {
    SearchIsLookup(q);
    AlphaRoundsEnd(q);
  }

  // ----- rounds that a holder cuts short -----

  // The contacts of a round in front of the first holder.
  function BeforeHolder(xs: seq<NodeInfo>, net: Net): (r: seq<NodeInfo>)
    ensures r <= xs && !SomeHolds(r, net)
    ensures |r| < |xs| ==> net(xs[|r|]).Holds?
  {
    if xs == [] || net(xs[0]).Holds? then []
    else
      var rest := BeforeHolder(xs[1..], net);
      assert forall x | x in [xs[0]] + rest :: x == xs[0] || x in rest;
      [xs[0]] + rest
  }

  // The buffer holds exactly the contacts met through the contacts heard; the
  // asked ones are marked queried, and the tellers among those heard responded.
  ghost predicate Heard(nodes: seq<Entry>, q: Search, asked: set<NodeInfo>, heard: set<NodeInfo>) {
    && NoDup(Infos(nodes)) && heard <= asked <= Met(q, heard)
    && Known(nodes) == Met(q, heard) <= q.universe
    && Queried(nodes) == asked && Responded(nodes) == Tellers(q.net, heard)
  }

  lemma RecordedIsHeard(m: seq<Entry>, q: Search, picks: seq<NodeInfo>)
    ensures var heard := BeforeHolder(picks, q.net);
            var absorbed := AbsorbAll(m, q.self, LookupRound(heard, q.net, false), false);
            RecordedNodes(m, q.target, q.self, LookupRound(picks, q.net, true), true) ==
            if heard == picks then Sorted(absorbed, q.target) else absorbed
  {
    var heard, rs := BeforeHolder(picks, q.net), LookupRound(picks, q.net, true);
    PrefixIsBefore(picks, q.net);
    assert rs[..|heard|] == LookupRound(heard, q.net, true);
    SameResponses(heard, q.net);
    SameAbsorbed(m, q.self, LookupRound(heard, q.net, true));
    if |heard| == |picks| {
      assert heard == picks;
    }
  }

  lemma PrefixIsBefore(picks: seq<NodeInfo>, net: Net)
    ensures RecordedPrefix(LookupRound(picks, net, true), true) == |BeforeHolder(picks, net)|
  {
    var heard, rs := BeforeHolder(picks, net), LookupRound(picks, net, true);
    var k := RecordedPrefix(rs, true);
    assert forall i | 0 <= i < |heard| :: heard[i] in heard && heard[i] == picks[i];
    assert forall i | 0 <= i < |picks| :: IsValue(rs[i]) <==> net(picks[i]).Holds?;
  }

  // Asking known contacts and recording those in front of the first holder.
  lemma RecordHeard(m: seq<Entry>, q: Search, picks: seq<NodeInfo>)
    requires World(q) && NoDup(Infos(m)) && Known(m) <= q.universe && Elems(picks) <= Known(m)
    ensures var r := RecordedNodes(m, q.target, q.self, LookupRound(picks, q.net, true), true);
            var heard := Elems(BeforeHolder(picks, q.net));
            && NoDup(Infos(r)) && Known(r) <= q.universe
            && Extends(m, r, ToldBy(q.net, heard) - {q.self}, heard - Tellers(q.net, heard), Tellers(q.net, heard))
  {
    var heard := BeforeHolder(picks, q.net);
    RecordedIsHeard(m, q, picks);
    assert forall x | x in heard :: x in picks;
    AbsorbHeard(m, q, heard);
    SortedKeeps(AbsorbAll(m, q.self, LookupRound(heard, q.net, false), false), q);
  }

  lemma AbsorbHeard(m: seq<Entry>, q: Search, heard: seq<NodeInfo>)
    requires World(q) && NoDup(Infos(m)) && Known(m) <= q.universe && Elems(heard) <= Known(m)
    ensures var a, xs := AbsorbAll(m, q.self, LookupRound(heard, q.net, false), false), Elems(heard);
            && NoDup(Infos(a)) && Known(a) <= q.universe
            && Extends(m, a, ToldBy(q.net, xs) - {q.self}, xs - Tellers(q.net, xs), Tellers(q.net, xs))
  {
    RoundSensible(m, heard, q.universe, q.net, false);
    AbsorbAllSets(m, q.self, LookupRound(heard, q.net, false), false, q.universe);
    RoundSets(heard, q.net);
  }

  lemma SortedKeeps(a: seq<Entry>, q: Search)
    requires World(q) && NoDup(Infos(a)) && Known(a) <= q.universe
    ensures var r := Sorted(a, q.target);
            NoDup(Infos(r)) && Known(r) == Known(a) && Queried(r) == Queried(a) && Responded(r) == Responded(a)
  {
    SortedSets(a, q.target);
    InOrderInfos(Sorted(a, q.target), q.target);
  }

  // Exactly what a value round adds, cut short or not.
  lemma ValueRoundHeard(nodes: seq<Entry>, q: Search, asked: set<NodeInfo>, heard: set<NodeInfo>)
    requires World(q) && Heard(nodes, q, asked, heard)
    ensures var picks := AlphaOf(nodes);
            Heard(AfterValueRound(nodes, q), q, asked + Elems(picks), heard + Elems(BeforeHolder(picks, q.net)))
  {
    var picks := AlphaOf(nodes);
    var more := Elems(BeforeHolder(picks, q.net));
    assert forall x | x in BeforeHolder(picks, q.net) :: x in picks;
    PicksNew(nodes);
    ValuePickSets(nodes, q.universe);
    RecordHeard(AfterPick(nodes), q, picks);
    MetGrows(q, heard, more);
    StillHeard(nodes, AfterPick(nodes), AfterValueRound(nodes, q), q, asked, heard, Elems(picks), more);
  }

  // Cut short, the round leaves the known contacts in their places, and puts the
  // new ones behind them.
  lemma CutKeepsPlaces(nodes: seq<Entry>, q: Search)
    requires Searching(nodes, q, Queried(nodes)) && DistinctIds(q.universe) && SomeHolds(AlphaOf(nodes), q.net)
    ensures Infos(nodes) <= Infos(AfterValueRound(nodes, q))
  {
    var picks := AlphaOf(nodes);
    PicksNew(nodes);
    MarkAllSets(nodes, picks);
    CutByHolder(picks, q.net);
    PrefixIsBefore(picks, q.net);
    RecordedIsHeard(AfterPick(nodes), q, picks);
    AbsorbBehind(AfterPick(nodes), q.self, LookupRound(BeforeHolder(picks, q.net), q.net, false), false);
  }

  lemma StillHeard(nodes: seq<Entry>, m: seq<Entry>, r: seq<Entry>, q: Search, asked: set<NodeInfo>,
                   heard: set<NodeInfo>, picks: set<NodeInfo>, more: set<NodeInfo>)
    requires Heard(nodes, q, asked, heard) && more <= picks <= Known(nodes)
    requires Extends(nodes, m, {}, picks, {})
    requires NoDup(Infos(r)) && Known(r) <= q.universe
    requires Extends(m, r, ToldBy(q.net, more) - {q.self}, more - Tellers(q.net, more), Tellers(q.net, more))
    requires Met(q, heard + more) == Met(q, heard) + (ToldBy(q.net, more) - {q.self})
    requires Tellers(q.net, heard + more) == Tellers(q.net, heard) + Tellers(q.net, more)
    ensures Heard(r, q, asked + picks, heard + more)
  {
  }

  // The contacts heard in a run.
  ghost function HeardFrom(nodes: seq<Entry>, q: Search, asked: set<NodeInfo>): set<NodeInfo>
    requires World(q) && Searching(nodes, q, asked)
    decreases |q.universe - asked|
  {
    var picks := AlphaOf(nodes);
    if picks == [] then {}
    else if !GoesOn(nodes, q) then Elems(BeforeHolder(picks, q.net))
    else
      ValueRoundSearching(nodes, q, asked);
      FewerUnasked(nodes, q, asked);
      Elems(BeforeHolder(picks, q.net)) + HeardFrom(AfterValueRound(nodes, q), q, asked + Elems(picks))
  }

  lemma {:induction false} RunIsHeard(nodes: seq<Entry>, q: Search, asked: set<NodeInfo>, last: seq<NodeInfo>,
                                      heard: set<NodeInfo>)
    requires World(q) && Searching(nodes, q, asked) && Heard(nodes, q, asked, heard)
    ensures var r := ValueRoundsFrom(nodes, q, asked, last);
            Heard(r.end, q, asked + Elems(r.asked), heard + HeardFrom(nodes, q, asked))
    decreases |q.universe - asked|
  {
    var picks, next, all := AlphaOf(nodes), AfterValueRound(nodes, q), asked + Elems(AlphaOf(nodes));
    if picks == [] {
      AddNothing(asked, heard);
    } else {
      ValueRoundSearching(nodes, q, asked);
      ValueRoundHeard(nodes, q, asked, heard);
      ValueStep(nodes, q, asked, last, all);
      if GoesOn(nodes, q) {
        var more := Elems(BeforeHolder(picks, q.net));
        FewerUnasked(nodes, q, asked);
        RunIsHeard(next, q, all, picks, heard + more);
        ElemsOfSum(picks, ValueRoundsFrom(next, q, all, picks).asked);
        SumTwice(asked, Elems(picks), Elems(ValueRoundsFrom(next, q, all, picks).asked));
        SumTwice(heard, more, HeardFrom(next, q, all));
      }
    }
  }

  lemma AddNothing(a: set<NodeInfo>, b: set<NodeInfo>)
    ensures a + Elems([]) == a && b + {} == b
  {
  }

  lemma SumTwice(a: set<NodeInfo>, b: set<NodeInfo>, c: set<NodeInfo>)
    ensures a + (b + c) == a + b + c
  {
  }

  // Over every run: the buffer ends with exactly the contacts met through those
  // heard.
  lemma SearchHeard(q: Search)
    requires World(q)
    ensures Searching(Start(q), q, {})
    ensures Heard(ValueRounds(q).end, q, Elems(ValueRounds(q).asked), HeardFrom(Start(q), q, {}))
  {
    StartSearching(q);
    StartBuffered(q);
    InOrderInfos(Start(q), q.target);
    RunIsHeard(Start(q), q, {}, [], {});
    AddToNone(Elems(ValueRounds(q).asked));
    AddToNone(HeardFrom(Start(q), q, {}));
  }

  // ----- when nobody is found -----

  // If no storer is found, no round had a holder, and everybody met was asked,
  // then no reachable contact holds the chunk.
  lemma NotFoundMeansNone(q: Search)
    requires World(q) && StorerFound(q) == None && !SomeHolds(ValueRounds(q).asked, q.net)
    requires var all := Elems(ValueRounds(q).asked + ClosingValuePicks(q));
             Met(q, all) <= all
    ensures forall x | Reachable(x, q) :: !q.net(x).Holds?
  {
    var all := ValueRounds(q).asked + ClosingValuePicks(q);
    forall x | Reachable(x, q)
      ensures !q.net(x).Holds?
    {
      ReachableIsMet(q, Elems(all), x);
      HoldsInSum(ValueRounds(q).asked, ClosingValuePicks(q), q.net);
      assert x in all;
    }
  }

  // So it is if no round had a holder and the rounds left nobody to ask.
  lemma ExhaustedSearch(q: Search)
    requires World(q) && AlphaOf(ValueRounds(q).end) == []
    requires !SomeHolds(ValueRounds(q).asked, q.net)
    ensures forall x | Reachable(x, q) :: !q.net(x).Holds?
  {
    var asked := Elems(ValueRounds(q).asked);
    SearchWithoutHolder(q);
    PicksAreNew(ValueRounds(q).end, q.target);
    assert Met(q, asked) <= asked;
    forall x | Reachable(x, q)
      ensures !q.net(x).Holds?
    {
      ReachableIsMet(q, asked, x);
      assert x in ValueRounds(q).asked;
    }
  }

  // With fewer than ALPHA contacts that are silent or hold the chunk, where the
  // network leads to the target: if one of the K closest answering contacts tells
  // of a holder closer than the farthest of them, or there are fewer than K, the
  // rounds ask a holder.
  lemma HolderIsAsked(q: Search, top: seq<NodeInfo>, x: NodeInfo, h: NodeInfo)
    requires World(q) && FewSilent(q) && Leads(q, top) && exists a | a in q.init :: q.net(a).Told?
    requires x in top && q.net(x).Told? && h in q.net(x).contacts && h != q.self && q.net(h).Holds?
    requires |top| < K || Dist(h.id, q.target) < Dist(top[|top| - 1].id, q.target)
    ensures SomeHolds(ValueRounds(q).asked, q.net)
  {
    LedLookup(q, top);
    FewSilentSettles(q);
    SearchIsLookup(q);
    Regroup(AlphaRounds(q).asked, [], []);
    assert AllAsked(q) == AlphaRounds(q).asked;
    ToldHolderAsked(q, top, x, h, AlphaRounds(q).asked);
  }

  lemma ToldHolderAsked(q: Search, top: seq<NodeInfo>, x: NodeInfo, h: NodeInfo, asked: seq<NodeInfo>)
    requires Settled(top, q, Elems(asked)) && x in top && q.net(x).Told?
    requires h in q.net(x).contacts && h != q.self && q.net(h).Holds?
    requires top != [] && (|top| < K || Dist(h.id, q.target) < Dist(top[|top| - 1].id, q.target))
    ensures SomeHolds(asked, q.net)
  {
    assert top[|top| - 1] in top;
    assert h in Elems(asked);
  }

  // ----- a single holder told of at the start -----

  // Some initial contact answers, none holds the chunk, and h, the closest of
  // the others met through them, is the only holder.
  ghost predicate OneHolder(q: Search, s: set<NodeInfo>, u: set<NodeInfo>, h: NodeInfo) {
    && Elems(q.init) == s && |q.init| <= ALPHA && u == Met(q, s) - s
    && (exists x | x in s :: q.net(x).Told?)
    && h in u && (forall x | x in q.universe :: q.net(x).Holds? <==> x == h)
    && forall y | y in u && y != h :: DistanceTo(q.target)(h) < DistanceTo(q.target)(y)
  }

  // It is found if and only if there are at most ALPHA of those others.
  lemma OneHolderFound(q: Search, s: set<NodeInfo>, u: set<NodeInfo>, h: NodeInfo)
    requires World(q) && OneHolder(q, s, u, h)
    ensures StorerFound(q) == if |u| <= ALPHA then Some(h) else None
  {
    var first := Start(q);
    var second := AfterValueRound(first, q);
    FirstRound(q, s);
    NoHolderFirst(q, s, u, h, AlphaOf(first));
    ValueRoundIsRound(first, q);
    StartInStep(q);
    EmptyElems(AlphaOf(first));
    WholeValueStep(first, q, [], []);
    assert [] + AlphaOf(first) == AlphaOf(first);
    SecondAsksHolder(q, s, u, h, second);
    LastHoldersFound(second, q, AlphaOf(first), AlphaOf(first));
    EverySearch(q);
    OnlyHolder(q, h);
  }

  lemma NoHolderFirst(q: Search, s: set<NodeInfo>, u: set<NodeInfo>, h: NodeInfo, picks: seq<NodeInfo>)
    requires World(q) && OneHolder(q, s, u, h) && Elems(picks) == s
    ensures !SomeHolds(picks, q.net)
  {
    assert forall x | x in picks :: x in Elems(picks);
  }

  lemma OnlyHolder(q: Search, h: NodeInfo)
    requires World(q) && forall x | x in q.universe :: q.net(x).Holds? <==> x == h
    ensures StorerFound(q).Some? ==> StorerFound(q).value == h
  {
    EverySearch(q);
    if StorerFound(q).Some? {
      ReachableIsMet(q, q.universe, StorerFound(q).value);
    }
  }

  // The second round asks h first, and leaves somebody to ask exactly if there
  // are more than ALPHA.
  lemma SecondAsksHolder(q: Search, s: set<NodeInfo>, u: set<NodeInfo>, h: NodeInfo, nodes: seq<Entry>)
    requires World(q) && OneHolder(q, s, u, h) && Buffered(nodes, q, s)
    ensures SomeHolds(AlphaOf(nodes), q.net) && h in AlphaOf(nodes)
    ensures var next := AfterValueRound(nodes, q);
            Known(next) <= Queried(next) <==> |u| <= ALPHA
  {
    var picks := AlphaOf(nodes);
    UnqueriedOf(nodes, q, s);
    AlphaIsClosest(nodes, q.target);
    ClosestFirst(picks, u, h, DistanceTo(q.target));
    NothingHeard(picks, h, q.net);
    HeardAfterHolder(nodes, q, s);
    AllPickedIff(picks, u, DistanceTo(q.target));
    NobodyLeftIff(Met(q, s), s, u, Elems(picks));
  }

  lemma UnqueriedOf(nodes: seq<Entry>, q: Search, s: set<NodeInfo>)
    requires World(q) && Buffered(nodes, q, s)
    ensures InOrder(nodes, q.target) && Known(nodes) - Queried(nodes) == Met(q, s) - s
  {
  }

  // A round whose first pick holds the chunk only marks its picks.
  lemma HeardAfterHolder(nodes: seq<Entry>, q: Search, s: set<NodeInfo>)
    requires World(q) && Buffered(nodes, q, s) && BeforeHolder(AlphaOf(nodes), q.net) == []
    ensures var next := AfterValueRound(nodes, q);
            Known(next) == Met(q, s) && Queried(next) == s + Elems(AlphaOf(nodes))
  {
    InOrderInfos(nodes, q.target);
    ValueRoundHeard(nodes, q, s, s);
    AddNothing(s, s);
    assert s + Elems([]) == s;
  }

  lemma AllPickedIff(picks: seq<NodeInfo>, u: set<NodeInfo>, d: NodeInfo -> nat)
    requires ClosestOf(picks, u, d, ALPHA)
    ensures u <= Elems(picks) <==> |u| <= ALPHA
  {
    IncreasingNoDup(picks, d);
    SubsetSize(Elems(picks), u);
    if u <= Elems(picks) {
      SubsetSize(u, Elems(picks));
    }
  }

  lemma NobodyLeftIff(met: set<NodeInfo>, s: set<NodeInfo>, u: set<NodeInfo>, picks: set<NodeInfo>)
    requires u == met - s
    ensures met <= s + picks <==> u <= picks
  {
  }

  lemma ClosestFirst(picks: seq<NodeInfo>, u: set<NodeInfo>, h: NodeInfo, d: NodeInfo -> nat)
    requires ClosestOf(picks, u, d, ALPHA) && h in u && forall y | y in u && y != h :: d(h) < d(y)
    ensures picks != [] && picks[0] == h
  {
    SubsetSize({h}, u);
    assert picks[0] in picks && picks[0] in Elems(picks);
    if h !in picks {
      assert false;
    }
    var i :| 0 <= i < |picks| && picks[i] == h;
  }

  lemma NothingHeard(picks: seq<NodeInfo>, h: NodeInfo, net: Net)
    requires picks != [] && picks[0] == h && net(h).Holds?
    ensures BeforeHolder(picks, net) == [] && h in picks && SomeHolds(picks, net)
  {
  }

  // The plain case: the search starts from a, which tells of h alone.
  lemma ToldHolderFound(q: Search, a: NodeInfo, h: NodeInfo)
    requires World(q) && q.init == [a] && q.net(a) == Told([h]) && h != a && h != q.self
    requires forall x | x in q.universe :: q.net(x).Holds? <==> x == h
    ensures StorerFound(q) == Some(h)
  {
    MetOne(q, a, [h]);
    assert ({a} + Elems([h])) - {a} == {h};
    assert a in {a};
    OneHolderFound(q, {a}, {h}, h);
  }

  // ----- the code -----

  // Node::find_storer: whoever is returned holds the chunk and is reachable, and
  // somebody is returned if and only if a holder is asked in the last ALPHA
  // round or in the closing one.
  method FindStorer(t: Key, init: seq<NodeInfo>, self: NodeInfo, net: Net, storedHere: bool,
                    ghost universe: set<NodeInfo>)
    returns (r: Option<NodeInfo>)
    requires World(Search(t, universe, net, init, self))
    ensures var q := Search(t, universe, net, init, self);
            && r == (if storedHere then Some(self) else StorerFound(q))
            && (r.Some? <==> storedHere || SomeHolds(LastPicks(q), net) || SomeHolds(ClosingValuePicks(q), net))
            && (r.Some? && !storedHere ==> net(r.value).Holds? && Reachable(r.value, q))
            && Asked(ValueRounds(q).asked + ClosingValuePicks(q), q)
    // it asks a holder in its rounds exactly if the node lookup would
    ensures var q := Search(t, universe, net, init, self);
            SomeHolds(ValueRounds(q).asked, net) <==> SomeHolds(AlphaRounds(q).asked, net)
    // nothing found, no holder passed over and everybody met asked: no reachable contact holds the chunk
    ensures var q := Search(t, universe, net, init, self);
            var all := Elems(ValueRounds(q).asked + ClosingValuePicks(q));
            r.None? && !SomeHolds(ValueRounds(q).asked, net) && Met(q, all) <= all ==>
              forall x | Reachable(x, q) :: !net(x).Holds?
    // a single holder, the closest contact told of by the initial ones, is found if and only if
    // at most ALPHA contacts were told of
    ensures var q := Search(t, universe, net, init, self);
            forall s, u, h | !storedHere && OneHolder(q, s, u, h) :: r == if |u| <= ALPHA then Some(h) else None
  {
    ghost var q := Search(t, universe, net, init, self);
    EverySearch(q);
    SearchMeans(q);
    if storedHere {
      return Some(self);
    }
    var buffer := new LookupBuffer(t, init, self);
    var current;
    ghost var asked, last;
    current, asked, last := RunValueRounds(buffer, net, q);
    r := HolderIn(current, last, net);
    if r.Some? {
      return;
    }
    var remaining := UnqueriedResultOf(buffer.nodes);
    if remaining == [] {
      return;
    }
    var responses := LookupRound(remaining, net, true);
    r := HolderIn(responses, remaining, net);
  }

  lemma SearchMeans(q: Search)
    requires World(q)
    ensures SomeHolds(ValueRounds(q).asked, q.net) <==> SomeHolds(AlphaRounds(q).asked, q.net)
    ensures var all := Elems(ValueRounds(q).asked + ClosingValuePicks(q));
            StorerFound(q).None? && !SomeHolds(ValueRounds(q).asked, q.net) && Met(q, all) <= all ==>
              forall x | Reachable(x, q) :: !q.net(x).Holds?
    ensures forall s, u, h | OneHolder(q, s, u, h) :: StorerFound(q) == if |u| <= ALPHA then Some(h) else None
  {
    SearchIsLookup(q);
    var all := Elems(ValueRounds(q).asked + ClosingValuePicks(q));
    if StorerFound(q).None? && !SomeHolds(ValueRounds(q).asked, q.net) && Met(q, all) <= all {
      NotFoundMeansNone(q);
    }
    forall s, u, h | OneHolder(q, s, u, h)
      ensures StorerFound(q) == if |u| <= ALPHA then Some(h) else None
    {
      OneHolderFound(q, s, u, h);
    }
  }
}
