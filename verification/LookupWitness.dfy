// Networks on which a lookup misses the closest contact that would answer.
module LookupWitness {
  import opened Keys
  import opened SmallKeys
  import opened Contacts
  import opened Closest
  import opened Lookup
  import opened Rounds
  import opened FindNodes
  import opened LookupRuns

  // The lookup starts from at most ALPHA contacts, the set s, one of which
  // answers; of the others met through them, the set u, the closest are silent.
  ghost predicate SilentTrap(q: Search, s: set<NodeInfo>, u: set<NodeInfo>, silent: set<NodeInfo>) {
    && Elems(q.init) == s && |q.init| <= ALPHA && u == Met(q, s) - s
    && (exists x | x in s :: q.net(x).Told?)
    && silent <= u && |silent| >= ALPHA
    && (forall m | m in silent :: !q.net(m).Told?)
    && (forall m, y | m in silent && y in u && y !in silent :: DistanceTo(q.target)(m) < DistanceTo(q.target)(y))
  }

  // Round two asks silent contacts only, and ends the loop.
  lemma SecondRound(q: Search, s: set<NodeInfo>, u: set<NodeInfo>, silent: set<NodeInfo>, nodes: seq<Entry>)
    requires World(q) && SilentTrap(q, s, u, silent) && Buffered(nodes, q, s)
    ensures AlphaOf(nodes) != [] && Elems(AlphaOf(nodes)) <= silent
    ensures ResultOf(AfterPick(nodes)) == ResultOf(AfterRound(nodes, q))
  {
    SubsetSize(silent, u);
    AlphaIsClosest(nodes, q.target);
    assert Known(nodes) - Queried(nodes) == u;
    ClosestWithin(AlphaOf(nodes), u, silent, DistanceTo(q.target), ALPHA);
    assert forall x | x in AlphaOf(nodes) :: x in Elems(AlphaOf(nodes));
    SilentRoundStops(nodes, q, s);
  }

  // The rounds ask the initial contacts and silent ones.
  lemma TrapRounds(q: Search, s: set<NodeInfo>, u: set<NodeInfo>, silent: set<NodeInfo>)
    requires World(q) && SilentTrap(q, s, u, silent)
    ensures s <= Elems(AlphaRounds(q).asked) <= s + silent
  {
    var first := Start(q);
    var second := AfterRound(first, q);
    FirstRound(q, s);
    SecondRound(q, s, u, silent, second);
    RoundBuffered(second, q, s);
    EmptyElems(AlphaOf(first));
    TwoRounds(first, second, q, s);
    ElemsOfSum(AlphaOf(first), AlphaOf(second));
  }

  lemma TwoRounds(first: seq<Entry>, second: seq<Entry>, q: Search, s: set<NodeInfo>)
    requires World(q) && Buffered(first, q, {}) && Elems(AlphaOf(first)) == s
    requires second == AfterRound(first, q) && Buffered(second, q, s) && ResultOf(AfterPick(first)) != ResultOf(second)
    requires Buffered(AfterRound(second, q), q, s + Elems(AlphaOf(second)))
    requires ResultOf(AfterPick(second)) == ResultOf(AfterRound(second, q))
    requires AlphaOf(first) != [] && AlphaOf(second) != []
    ensures RoundsFrom(first, q, {}) == Trail(AlphaOf(first) + AlphaOf(second), AfterRound(second, q))
  {
    AddToNone(s);
    RoundsStep(first, q, {}, s);
    RoundsStep(second, q, s, s + Elems(AlphaOf(second)));
  }

  // So the lookup asks nobody two steps away and meets nobody beyond.
  lemma TrapMet(q: Search, s: set<NodeInfo>, u: set<NodeInfo>, silent: set<NodeInfo>)
    requires World(q) && SilentTrap(q, s, u, silent)
    ensures Met(q, Elems(AllAsked(q))) <= Met(q, s + u)
  {
    var before := Elems(AlphaRounds(q).asked);
    TrapRounds(q, s, u, silent);
    AsksWhatIsMet(q);
    SilentTellNothing(q, s, silent, before);
    Within(Elems(AllAsked(q)), before, Met(q, before), Met(q, s), s, u, silent);
    MetMonotone(q, Elems(AllAsked(q)), s + u);
  }

  lemma Within(all: set<NodeInfo>, before: set<NodeInfo>, met: set<NodeInfo>, first: set<NodeInfo>, s: set<NodeInfo>,
               u: set<NodeInfo>, silent: set<NodeInfo>)
    requires all <= before + met && before <= s + silent && met <= first && u == first - s && silent <= u
    ensures all <= s + u
  {
  }

  lemma AsksWhatIsMet(q: Search)
    requires World(q)
    ensures var before := Elems(AlphaRounds(q).asked);
            Elems(AllAsked(q)) <= before + Met(q, before)
  {
    AlphaRoundsEnd(q);
    UnqueriedAreNew(AlphaRounds(q).end, q.target);
    ElemsOfSum(AlphaRounds(q).asked, ClosingPicks(q));
  }

  lemma SilentTellNothing(q: Search, s: set<NodeInfo>, silent: set<NodeInfo>, asked: set<NodeInfo>)
    requires asked <= s + silent && forall m | m in silent :: !q.net(m).Told?
    ensures Met(q, asked) <= Met(q, s)
  {
  }

  lemma MetMonotone(q: Search, a: set<NodeInfo>, b: set<NodeInfo>)
    requires a <= b
    ensures Met(q, a) <= Met(q, b)
  {
  }

  // A reachable contact that would answer and is closer than everybody within
  // two steps is missed.
  lemma SilentTrapMisses(q: Search, s: set<NodeInfo>, u: set<NodeInfo>, silent: set<NodeInfo>, e: NodeInfo)
    requires World(q) && SilentTrap(q, s, u, silent) && e in ReachableTellers(q)
    requires forall x | x in Met(q, s + u) :: DistanceTo(q.target)(e) < DistanceTo(q.target)(x)
    ensures e !in LookupResult(q)
    ensures forall x | x in LookupResult(q) :: Dist(e.id, q.target) < Dist(x.id, q.target)
    ensures !ClosestOf(LookupResult(q), ReachableTellers(q), DistanceTo(q.target), K)
  {
    TrapMet(q, s, u, silent);
    ResultOfAllMet(q);
    forall x | x in LookupResult(q)
      ensures DistanceTo(q.target)(e) < DistanceTo(q.target)(x)
    {
      assert x in Elems(LookupResult(q));
      assert x in Met(q, Elems(AllAsked(q)));
    }
    assert |LookupResult(q)| == K ==> LookupResult(q)[0] in LookupResult(q);
    if ClosestOf(LookupResult(q), ReachableTellers(q), DistanceTo(q.target), K) {
      LeftOut(LookupResult(q), ReachableTellers(q), q.target, e);
      assert false;
    }
  }

  // ----- one such network -----

  // Seven contacts in order of distance, the third to the fifth silent. The last
  // tells of those and the sixth, the sixth of the second, the second of the
  // first, and the first of all that answer.
  function TrapNet(c: seq<NodeInfo>): Net
    requires |c| == 7
  {
    (x: NodeInfo) =>
      if x == c[6] then Told(c[2..6])
      else if x == c[5] then Told([c[1]])
      else if x == c[1] then Told([c[0]])
      else if x == c[0] then Told([c[1], c[5], c[6]])
      else Mute
  }

  ghost predicate Replies(net: Net, c: seq<NodeInfo>)
    requires |c| == 7
  {
    && net(c[6]) == Told(c[2..6]) && net(c[5]) == Told([c[1]])
    && net(c[1]) == Told([c[0]]) && net(c[0]) == Told([c[1], c[5], c[6]])
    && net(c[2]) == net(c[3]) == net(c[4]) == Mute
  }

  lemma TrapNetReplies(c: seq<NodeInfo>)
    requires |c| == 7 && NoDup(c)
    ensures Replies(TrapNet(c), c)
  {
  }

  ghost predicate Instance(q: Search, c: seq<NodeInfo>) {
    && |c| == 7 && Increasing(c, DistanceTo(q.target)) && q.self !in c
    && Replies(q.net, c) && q.universe == Elems(c) && q.init == [c[6]]
  }

  lemma InstanceWorld(q: Search, c: seq<NodeInfo>)
    requires Instance(q, c)
    ensures World(q)
  {
    forall x | x in ToldBy(q.net, q.universe)
      ensures x in q.universe
    {
      var y :| y in q.universe && q.net(y).Told? && x in q.net(y).contacts;
      ToldInside(q.net, c, x, y);
    }
    IncreasingDistinctIds(c, q.target);
    assert c[6] in c;
  }

  lemma ToldInside(net: Net, c: seq<NodeInfo>, x: NodeInfo, y: NodeInfo)
    requires |c| == 7 && Replies(net, c) && y in c && net(y).Told? && x in net(y).contacts
    ensures x in c
  {
    SilentAre(net, c, y);
    if y == c[6] {
      assert c[2..6] <= c[2..];
    } else {
      assert c[0] in c && c[1] in c && c[5] in c && c[6] in c;
    }
  }

  lemma InstanceFirst(q: Search, c: seq<NodeInfo>)
    requires Instance(q, c)
    ensures Met(q, {c[6]}) == {c[6]} + Elems(c[2..6]) && Elems(q.init) == {c[6]}
  {
    MetOne(q, c[6], c[2..6]);
  }

  // The last five do not tell of the first.
  lemma InstanceSecond(q: Search, c: seq<NodeInfo>, asked: set<NodeInfo>)
    requires Instance(q, c) && forall x | x in asked :: x in c[2..]
    ensures forall x | x in Met(q, asked) :: x in c[1..]
  {
    forall x | x in Met(q, asked)
      ensures x in c[1..]
    {
      if x in q.init {
        assert c[1..][5] == c[6];
      } else {
        var y :| y in asked && q.net(y).Told? && x in q.net(y).contacts;
        ToldBeyond(q.net, c, x, y);
      }
    }
  }

  lemma ToldBeyond(net: Net, c: seq<NodeInfo>, x: NodeInfo, y: NodeInfo)
    requires |c| == 7 && Replies(net, c) && y in c[2..] && net(y).Told? && x in net(y).contacts
    ensures x in c[1..]
  {
    var i :| 2 <= i < 7 && c[i] == y;
    assert i == 5 || i == 6;
    assert c[1..][0] == c[1] && c[2..6] == c[1..][1..5];
  }

  lemma InstanceTrap(q: Search, c: seq<NodeInfo>)
    requires Instance(q, c)
    ensures SilentTrap(q, {c[6]}, Elems(c[2..6]), Elems(c[2..5]))
  {
    InstanceFirst(q, c);
    FirstNotAmong(q, c);
    assert c[6] in {c[6]};
    ThreeSilent(q, c, Elems(c[2..6]), Elems(c[2..5]));
  }

  lemma ThreeSilent(q: Search, c: seq<NodeInfo>, u: set<NodeInfo>, silent: set<NodeInfo>)
    requires Instance(q, c) && u == Elems(c[2..6]) && silent == Elems(c[2..5])
    ensures silent <= u && |silent| == 3 && forall m | m in silent :: !q.net(m).Told?
    ensures forall m, y | m in silent && y in u && y !in silent :: DistanceTo(q.target)(m) < DistanceTo(q.target)(y)
  {
    FrontBeforeRest(c[2..6], 3, DistanceTo(q.target));
    SameFront(c);
    forall m | m in silent
      ensures !q.net(m).Told?
    {
      MuteThree(q.net, c, m);
    }
  }

  lemma SameFront(c: seq<NodeInfo>)
    requires |c| == 7
    ensures c[2..6][..3] == c[2..5]
  {
  }

  lemma MuteThree(net: Net, c: seq<NodeInfo>, m: NodeInfo)
    requires |c| == 7 && Replies(net, c) && m in c[2..5]
    ensures net(m) == Mute
  {
    var i :| 2 <= i < 5 && c[i] == m;
  }

  lemma FirstNotAmong(q: Search, c: seq<NodeInfo>)
    requires Instance(q, c)
    ensures ({c[6]} + Elems(c[2..6])) - {c[6]} == Elems(c[2..6])
  {
  }

  lemma InstanceReach(q: Search, c: seq<NodeInfo>)
    requires Instance(q, c)
    ensures c[0] in ReachableTellers(q)
  {
    assert forall i | 0 <= i < 7 :: c[i] in c;
    assert c[2..6][3] == c[5];
    var p := [c[6], c[5], c[1]];
    assert Path(p[..1], q);
    assert p[..2][..1] == p[..1];
    assert Link(c[6], c[5], q) && Path(p[..2], q);
    assert Link(c[5], c[1], q) && Path(p, q);
    ExtendPath(p, c[0], q);
  }

  // No more than ALPHA contacts are silent.
  lemma InstanceSilent(q: Search, c: seq<NodeInfo>)
    requires Instance(q, c)
    ensures |Silent(q)| == ALPHA
  {
    forall x | x in c
      ensures q.net(x).Told? <==> x !in c[2..5]
    {
      SilentAre(q.net, c, x);
    }
    SilentSet(q, c);
    ThreeMembers(c, DistanceTo(q.target));
  }

  lemma SilentAre(net: Net, c: seq<NodeInfo>, x: NodeInfo)
    requires |c| == 7 && Replies(net, c) && x in c
    ensures net(x).Told? <==> x !in c[2..5]
  {
    var i :| 0 <= i < 7 && c[i] == x;
    if 2 <= i < 5 {
      assert c[2..5][i - 2] == x;
    } else if x in c[2..5] {
      MuteThree(net, c, x);
    }
  }

  lemma SilentSet(q: Search, c: seq<NodeInfo>)
    requires |c| == 7 && q.universe == Elems(c) && forall x | x in c :: q.net(x).Told? <==> x !in c[2..5]
    ensures Silent(q) == Elems(c[2..5])
  {
    assert forall x | x in c[2..5] :: x in c;
  }

  lemma ThreeMembers(c: seq<NodeInfo>, d: NodeInfo -> nat)
    requires |c| == 7 && Increasing(c, d)
    ensures |Elems(c[2..5])| == 3
  {
    IncreasingNoDup(c[2..5], d);
  }

  // And the network leads to the target.
  lemma InstanceLeads(q: Search, c: seq<NodeInfo>)
    requires Instance(q, c)
    ensures Leads(q, [c[0], c[1], c[5], c[6]])
  {
    var top := [c[0], c[1], c[5], c[6]];
    InstanceAnswering(q, c, top);
    InstanceCloser(q, c, top);
    FourIncreasing(c, DistanceTo(q.target), top);
    forall x | x in top && x != top[0]
      ensures TellsCloser(q, x) && x in q.net(top[0]).contacts
    {
      OneOfFour(c, top, x);
    }
    LeadsAlong(q, top);
  }

  lemma OneOfFour(c: seq<NodeInfo>, top: seq<NodeInfo>, x: NodeInfo)
    requires |c| == 7 && top == [c[0], c[1], c[5], c[6]] && x in top && x != top[0]
    ensures x in [c[1], c[5], c[6]] && (x == c[1] || x == c[5] || x == c[6])
  {
  }

  lemma FourIncreasing(c: seq<NodeInfo>, d: NodeInfo -> nat, top: seq<NodeInfo>)
    requires |c| == 7 && Increasing(c, d) && top == [c[0], c[1], c[5], c[6]]
    ensures Increasing(top, d)
  {
  }

  lemma LeadsAlong(q: Search, top: seq<NodeInfo>)
    requires top != [] && |top| <= K && Increasing(top, DistanceTo(q.target)) && Answering(q) == Elems(top)
    requires q.net(top[0]).Told?
    requires forall x | x in top && x != top[0] :: TellsCloser(q, x) && x in q.net(top[0]).contacts
    ensures Leads(q, top)
  {
    AllAreClosest(top, DistanceTo(q.target));
  }

  lemma AllAreClosest(top: seq<NodeInfo>, d: NodeInfo -> nat)
    requires |top| <= K && Increasing(top, d)
    ensures ClosestOf(top, Elems(top), d, K)
  {
    PrefixIsClosest(top, d, K);
    assert top[..|top|] == top;
  }

  lemma InstanceCloser(q: Search, c: seq<NodeInfo>, top: seq<NodeInfo>)
    requires Instance(q, c) && top == [c[0], c[1], c[5], c[6]] && Answering(q) == Elems(top)
    ensures TellsCloser(q, c[1]) && TellsCloser(q, c[5]) && TellsCloser(q, c[6])
  {
    assert c[0] in top && c[1] in top && c[5] in top;
    assert c[2..6][3] == c[5];
    TellsOne(q, c[1], c[0]);
    TellsOne(q, c[5], c[1]);
    TellsOne(q, c[6], c[5]);
  }

  lemma TellsOne(q: Search, x: NodeInfo, y: NodeInfo)
    requires q.net(x).Told? && y in q.net(x).contacts && y in Answering(q)
    requires DistanceTo(q.target)(y) < DistanceTo(q.target)(x)
    ensures TellsCloser(q, x)
  {
  }

  lemma InstanceAnswering(q: Search, c: seq<NodeInfo>, top: seq<NodeInfo>)
    requires Instance(q, c) && top == [c[0], c[1], c[5], c[6]]
    ensures Answering(q) == Elems(top)
  {
    assert forall i | 0 <= i < 7 :: c[i] in c;
    forall x | x in Answering(q)
      ensures x in top
    {
      var i :| 0 <= i < 7 && c[i] == x;
      assert i == 0 || i == 1 || i == 5 || i == 6;
      assert top[0] == c[0] && top[1] == c[1] && top[2] == c[5] && top[3] == c[6];
    }
  }

  // In a universe of at most K contacts everybody met in the rounds is asked.
  lemma AsksAllOfFew(q: Search)
    requires World(q) && |q.universe| <= K
    ensures Met(q, Elems(AlphaRounds(q).asked)) <= Elems(AllAsked(q))
  {
    AlphaRoundsEnd(q);
    FrontAsked(AlphaRounds(q).end, q, AlphaRounds(q).asked);
    WholeFront(AlphaRounds(q).end, q);
  }

  lemma WholeFront(nodes: seq<Entry>, q: Search)
    requires InOrder(nodes, q.target) && Known(nodes) <= q.universe && |q.universe| <= K
    ensures Elems(Infos(Take(nodes, K))) == Known(nodes)
  {
    InOrderInfos(nodes, q.target);
    InfosElems(nodes);
    NoDupCardinality(Infos(nodes));
    SubsetSize(Known(nodes), q.universe);
    assert Take(nodes, K) == nodes;
  }

  // A contact met in the rounds and asked after them answers uncounted.
  lemma AnswersLate(q: Search, x: NodeInfo)
    requires World(q) && |q.universe| <= K && q.net(x).Told?
    requires x in Met(q, Elems(AlphaRounds(q).asked)) && x !in Elems(AlphaRounds(q).asked)
    ensures x in AllAsked(q) && x !in Responsive(q)
  {
    AsksAllOfFew(q);
    assert x in Elems(AllAsked(q));
    ResponsiveAnswered(q);
    assert x !in Elems(Responsive(q));
  }

  // The sixth contact does.
  lemma InstanceUncounted(q: Search, c: seq<NodeInfo>)
    requires World(q) && Instance(q, c)
    ensures c[5] in AllAsked(q) && q.net(c[5]).Told? && c[5] !in Responsive(q)
  {
    InstanceTrap(q, c);
    TrapRounds(q, {c[6]}, Elems(c[2..6]), Elems(c[2..5]));
    FifthLater(q, c, Elems(AlphaRounds(q).asked));
    NoDupCardinality(c);
    AnswersLate(q, c[5]);
  }

  lemma TellerTells(q: Search, asked: set<NodeInfo>, x: NodeInfo, y: NodeInfo)
    requires x in asked && q.net(x).Told? && y in q.net(x).contacts && y != q.self
    ensures y in Met(q, asked)
  {
  }

  lemma FifthLater(q: Search, c: seq<NodeInfo>, before: set<NodeInfo>)
    requires Instance(q, c) && {c[6]} <= before <= {c[6]} + Elems(c[2..5])
    ensures NoDup(c) && c[5] in Met(q, before) && c[5] !in before
  {
    IncreasingNoDup(c, DistanceTo(q.target));
    assert c[2..6][3] == c[5] && c[5] in c;
    TellerTells(q, before, c[6], c[5]);
  }

  // Node `own` looks for 0 among seven contacts, starting from the last.
  ghost function SmallSearch(own: bv8, bytes: seq<bv8>): Search
    requires |bytes| == 7
  {
    var c := ContactsOf(bytes);
    Search(Small(0), Elems(c), TrapNet(c), [c[6]], Contact(own))
  }

  lemma SmallInstance(own: bv8, bytes: seq<bv8>)
    requires |bytes| == 7 && Ascending(bytes) && own !in bytes
    ensures Instance(SmallSearch(own, bytes), ContactsOf(bytes))
  {
    var c := ContactsOf(bytes);
    ContactsInOrder(bytes);
    NotAmong(bytes, own);
    IncreasingNoDup(c, DistanceTo(Small(0)));
    TrapNetReplies(c);
  }

  // The lookup misses the closest contact, c[0], although the network leads to
  // it and only ALPHA contacts are silent, and c[5] answers uncounted.
  ghost predicate Missing(q: Search, c: seq<NodeInfo>)
    requires |c| == 7
  {
    && World(q) && |Silent(q)| == ALPHA && Leads(q, [c[0], c[1], c[5], c[6]])
    && c[0] in ReachableTellers(q) && c[0] !in LookupResult(q)
    && !ClosestOf(LookupResult(q), ReachableTellers(q), DistanceTo(q.target), K)
    && c[5] in AllAsked(q) && q.net(c[5]).Told? && c[5] !in Responsive(q)
  }

  // Node 8 looks for 0 among the contacts 1 to 7, starting from 7; 3, 4 and 5 are
  // silent. The lookup does not find 1, and 6 is not counted as responsive.
  lemma LookupMissesClosest()
    ensures Missing(SmallSearch(8, [1, 2, 3, 4, 5, 6, 7]), ContactsOf([1, 2, 3, 4, 5, 6, 7]))
  {
    SmallInstance(8, [1, 2, 3, 4, 5, 6, 7]);
    InstanceMisses(SmallSearch(8, [1, 2, 3, 4, 5, 6, 7]), ContactsOf([1, 2, 3, 4, 5, 6, 7]));
  }

  lemma InstanceMisses(q: Search, c: seq<NodeInfo>)
    requires Instance(q, c)
    ensures Missing(q, c)
  {
    InstanceWorld(q, c);
    InstanceReach(q, c);
    InstanceTrap(q, c);
    InstanceFar(q, c);
    SilentTrapMisses(q, {c[6]}, Elems(c[2..6]), Elems(c[2..5]), c[0]);
    InstanceSilent(q, c);
    InstanceLeads(q, c);
    InstanceUncounted(q, c);
  }

  lemma InstanceFar(q: Search, c: seq<NodeInfo>)
    requires Instance(q, c)
    ensures forall x | x in Met(q, {c[6]} + Elems(c[2..6])) :: DistanceTo(q.target)(c[0]) < DistanceTo(q.target)(x)
  {
    var asked := {c[6]} + Elems(c[2..6]);
    forall x | x in asked
      ensures x in c[2..]
    {
      assert c[2..][4] == c[6] && c[2..][..4] == c[2..6];
    }
    InstanceSecond(q, c, asked);
    forall x | x in Met(q, asked)
      ensures DistanceTo(q.target)(c[0]) < DistanceTo(q.target)(x)
    {
      var i :| 1 <= i < 7 && c[i] == x;
    }
  }
}
