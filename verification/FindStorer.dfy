// The value lookup: find_storer, and which of its rounds decide.
module FindStorers {
  import opened Keys
  import opened Contacts
  import opened Closest
  import opened Common
  import opened Lookup
  import opened LookupBuffers
  import opened Rounds
  import opened FindNodes
  import opened LookupRuns

  lemma {:induction false} SelectNoDup(nodes: seq<Entry>, p: Entry -> bool)
    requires NoDup(Infos(nodes))
    ensures NoDup(Infos(Select(nodes, p)))
  {
    if nodes != [] {
      var front, l := nodes[..|nodes| - 1], nodes[|nodes| - 1];
      assert Infos(front) == Infos(nodes)[..|nodes| - 1];
      SelectNoDup(front, p);
      SelectElems(front, p);
      var s := Select(front, p);
      forall i | 0 <= i < |s|
        ensures s[i].info != l.info
      {
        assert s[i] in s;
        var j :| 0 <= j < |front| && front[j] == s[i];
        assert Infos(nodes)[j] != Infos(nodes)[|nodes| - 1];
      }
    }
  }

  // The unqueried entries of any stretch of the buffer, sorted or not.
  lemma UnqueriedNew(nodes: seq<Entry>, part: seq<Entry>)
    requires NoDup(Infos(nodes)) && part <= nodes
    ensures var s := Infos(Select(part, (e: Entry) => !e.queried));
            NoDup(s) && Elems(s) <= Known(nodes) - Queried(nodes)
  {
    var p := (e: Entry) => !e.queried;
    assert forall i | 0 <= i < |part| :: Infos(part)[i] == Infos(nodes)[i];
    SelectNoDup(part, p);
    SelectKnown(part, p);
    InfosElems(Select(part, p));
    forall i | 0 <= i < |part| && p(part[i])
      ensures part[i].info in Known(nodes) - Queried(nodes)
    {
      EntryMarks(nodes, i);
    }
  }

  lemma PicksNew(nodes: seq<Entry>)
    requires NoDup(Infos(nodes))
    ensures NoDup(AlphaOf(nodes)) && Elems(AlphaOf(nodes)) <= Known(nodes) - Queried(nodes)
  {
    UnqueriedNew(nodes, nodes);
    var s := Infos(Select(nodes, (e: Entry) => !e.queried));
    assert forall x | x in Take(s, ALPHA) :: x in s;
  }

  // ----- the buffer between rounds; a value round may leave it unsorted -----

  ghost predicate Searching(nodes: seq<Entry>, q: Search, asked: set<NodeInfo>) {
    && NoDup(Infos(nodes)) && Known(nodes) <= q.universe
    && (forall x | x in Known(nodes) :: Reachable(x, q))
    && asked <= Known(nodes) && Queried(nodes) == asked
  }

  lemma StartSearching(q: Search)
    requires World(q)
    ensures Searching(Sorted(Fresh(q.init), q.target), q, {})
  {
    StartBuffered(q);
    InOrderInfos(Sorted(Fresh(q.init), q.target), q.target);
    MetReachable(q, {});
  }

  // What a value round reports comes from contacts that told it.
  lemma ValueRoundSets(resolvers: seq<NodeInfo>, net: Net, k: nat)
    requires k <= |resolvers|
    requires forall i | 0 <= i < k :: !IsValue(LookupRound(resolvers, net, true)[i])
    ensures var rs := LookupRound(resolvers, net, true)[..k];
            && Refused(rs, true) <= Elems(resolvers)
            && Reported(rs, true) <= ToldBy(net, Elems(resolvers))
  {
  }

  lemma SensiblePart(nodes: seq<Entry>, rs: seq<Response>, universe: set<NodeInfo>, k: nat)
    requires k <= |rs| && Sensible(nodes, rs, universe)
    ensures Sensible(nodes, rs[..k], universe)
  {
  }

  ghost function AfterValueRound(nodes: seq<Entry>, q: Search): seq<Entry> {
    RecordedNodes(AfterPick(nodes), q.target, q.self, LookupRound(AlphaOf(nodes), q.net, true), true)
  }

  lemma ValuePickSets(nodes: seq<Entry>, universe: set<NodeInfo>)
    requires NoDup(Infos(nodes)) && Known(nodes) <= universe && DistinctIds(universe)
    ensures Extends(nodes, AfterPick(nodes), {}, Elems(AlphaOf(nodes)), {})
    ensures NoDup(Infos(AfterPick(nodes)))
  {
    PicksNew(nodes);
    MarkAllSets(nodes, AlphaOf(nodes));
  }

  // Recording a value round, all of it or up to the first value.
  lemma ValueRecord(m: seq<Entry>, q: Search, picks: seq<NodeInfo>)
    requires NoDup(Infos(m)) && Known(m) <= q.universe
    requires DistinctIds(q.universe) && ToldBy(q.net, q.universe) <= q.universe
    requires Elems(picks) <= Queried(m) <= Known(m)
    ensures var r := RecordedNodes(m, q.target, q.self, LookupRound(picks, q.net, true), true);
            && NoDup(Infos(r)) && Known(r) <= q.universe
            && Queried(r) == Queried(m) && Known(m) <= Known(r) <= Known(m) + (ToldBy(q.net, Elems(picks)) - {q.self})
  {
    var rs := LookupRound(picks, q.net, true);
    var k := RecordedPrefix(rs, true);
    RoundSensible(m, picks, q.universe, q.net, true);
    SensiblePart(m, rs, q.universe, k);
    AbsorbAllSets(m, q.self, rs[..k], true, q.universe);
    ValueRoundSets(picks, q.net, k);
    var a := AbsorbAll(m, q.self, rs[..k], true);
    SortedSets(a, q.target);
    InOrderInfos(Sorted(a, q.target), q.target);
  }

  lemma ValueRoundSearching(nodes: seq<Entry>, q: Search, asked: set<NodeInfo>)
    requires World(q) && Searching(nodes, q, asked)
    ensures Searching(AfterValueRound(nodes, q), q, asked + Elems(AlphaOf(nodes)))
  {
    var picks := AlphaOf(nodes);
    PicksNew(nodes);
    ValuePickSets(nodes, q.universe);
    ValueRecord(AfterPick(nodes), q, picks);
    MetReachable(q, Elems(picks));
  }

  // ----- holders -----

  ghost predicate SomeHolds(xs: seq<NodeInfo>, net: Net) {
    exists x | x in xs :: net(x).Holds?
  }

  // The first contact of a round that says it holds the value.
  function FirstHolder(xs: seq<NodeInfo>, net: Net): (r: Option<NodeInfo>)
    ensures r.Some? <==> SomeHolds(xs, net)
    ensures r.Some? ==> r.value in xs && net(r.value).Holds?
  {
    if xs == [] then None
    else if net(xs[0]).Holds? then Some(xs[0])
    else
      assert xs == [xs[0]] + xs[1..];
      FirstHolder(xs[1..], net)
  }

  lemma {:induction false} FirstHolderAt(xs: seq<NodeInfo>, net: Net, i: nat)
    requires i < |xs| && net(xs[i]).Holds? && forall j | 0 <= j < i :: !net(xs[j]).Holds?
    ensures FirstHolder(xs, net) == Some(xs[i])
  {
    if i > 0 {
      FirstHolderAt(xs[1..], net, i - 1);
    }
  }

  method HolderIn(responses: seq<Response>, ghost xs: seq<NodeInfo>, net: Net) returns (r: Option<NodeInfo>)
    requires responses == LookupRound(xs, net, true)
    ensures r == FirstHolder(xs, net)
  {
    for i := 0 to |responses|
      invariant forall j | 0 <= j < i :: !net(xs[j]).Holds?
    {
      if IsValue(responses[i]) {
        FirstHolderAt(xs, net, i);
        return Some(responses[i].resolver);
      }
    }
    return None;
  }

  // A value cuts recording short exactly if somebody holds it.
  lemma CutByHolder(xs: seq<NodeInfo>, net: Net)
    ensures RecordedPrefix(LookupRound(xs, net, true), true) < |xs| <==> SomeHolds(xs, net)
  {
    var rs := LookupRound(xs, net, true);
    var k := RecordedPrefix(rs, true);
    assert forall i | 0 <= i < |xs| :: IsValue(rs[i]) <==> net(xs[i]).Holds?;
    if k < |xs| {
      assert xs[k] in xs;
    }
  }

  // ----- the rounds of find_storer -----

  // The contacts asked, the resolvers of the last round, the buffer at the end.
  datatype ValueTrail = ValueTrail(asked: seq<NodeInfo>, last: seq<NodeInfo>, end: seq<Entry>)

  // The loop goes on after a round with a holder, or with a new result.
  ghost predicate GoesOn(nodes: seq<Entry>, q: Search) {
    SomeHolds(AlphaOf(nodes), q.net) || ResultOf(AfterPick(nodes)) != ResultOf(AfterValueRound(nodes, q))
  }

  ghost function ValueRoundsFrom(nodes: seq<Entry>, q: Search, asked: set<NodeInfo>, last: seq<NodeInfo>): ValueTrail
    requires World(q) && Searching(nodes, q, asked)
    decreases |q.universe - asked|
  {
    var picks, next := AlphaOf(nodes), AfterValueRound(nodes, q);
    if picks == [] then ValueTrail([], last, nodes)
    else if !GoesOn(nodes, q) then ValueTrail(picks, picks, next)
    else
      ValueRoundSearching(nodes, q, asked);
      FewerUnasked(nodes, q, asked);
      var rest := ValueRoundsFrom(next, q, asked + Elems(picks), picks);
      ValueTrail(picks + rest.asked, rest.last, rest.end)
  }

  lemma FewerUnasked(nodes: seq<Entry>, q: Search, asked: set<NodeInfo>)
    requires Searching(nodes, q, asked) && AlphaOf(nodes) != []
    ensures |q.universe - (asked + Elems(AlphaOf(nodes)))| < |q.universe - asked|
  {
    PicksNew(nodes);
    var x := AlphaOf(nodes)[0];
    assert x in Elems(AlphaOf(nodes));
    SubsetSize(q.universe - (asked + Elems(AlphaOf(nodes))), q.universe - asked - {x});
  }

  ghost function ValueRounds(q: Search): ValueTrail
    requires World(q)
  {
    StartSearching(q);
    ValueRoundsFrom(Start(q), q, {}, [])
  }

  ghost function LastPicks(q: Search): seq<NodeInfo>
    requires World(q)
  {
    ValueRounds(q).last
  }

  ghost function ClosingValuePicks(q: Search): seq<NodeInfo>
    requires World(q)
  {
    UnqueriedResultOf(ValueRounds(q).end)
  }

  // What find_storer returns if the chunk is not stored here.
  ghost function StorerFound(q: Search): Option<NodeInfo>
    requires World(q)
  {
    var first := FirstHolder(LastPicks(q), q.net);
    if first.Some? then first else FirstHolder(ClosingValuePicks(q), q.net)
  }

  // ----- which rounds decide -----

  lemma ValueStep(nodes: seq<Entry>, q: Search, asked: set<NodeInfo>, last: seq<NodeInfo>, all: set<NodeInfo>)
    requires World(q) && Searching(nodes, q, asked)
    requires all == asked + Elems(AlphaOf(nodes)) && Searching(AfterValueRound(nodes, q), q, all)
    ensures var picks, next := AlphaOf(nodes), AfterValueRound(nodes, q);
            ValueRoundsFrom(nodes, q, asked, last) ==
              if picks == [] then ValueTrail([], last, nodes)
              else if !GoesOn(nodes, q) then ValueTrail(picks, picks, next)
              else
                var rest := ValueRoundsFrom(next, q, all, picks);
                ValueTrail(picks + rest.asked, rest.last, rest.end)
  {
  }

  // If there is anybody to ask, the last round asks contacts not asked before.
  lemma {:induction false} LastIsNew(nodes: seq<Entry>, q: Search, asked: set<NodeInfo>, last: seq<NodeInfo>)
    requires World(q) && Searching(nodes, q, asked) && AlphaOf(nodes) != []
    ensures var r := ValueRoundsFrom(nodes, q, asked, last);
            r.last != [] && Elems(r.last) !! asked && Elems(r.last) <= Elems(r.asked)
    decreases |q.universe - asked|
  {
    var picks, next := AlphaOf(nodes), AfterValueRound(nodes, q);
    PicksNew(nodes);
    if GoesOn(nodes, q) {
      var all := asked + Elems(picks);
      ValueRoundSearching(nodes, q, asked);
      ValueStep(nodes, q, asked, last, all);
      FewerUnasked(nodes, q, asked);
      var rest := ValueRoundsFrom(next, q, all, picks);
      if AlphaOf(next) != [] {
        LastIsNew(next, q, all, picks);
      }
      ElemsOfSum(picks, rest.asked);
    }
  }

  // A round with a holder decides if and only if it leaves nobody to ask.
  lemma HolderRoundDecides(nodes: seq<Entry>, q: Search, asked: set<NodeInfo>, last: seq<NodeInfo>)
    requires World(q) && Searching(nodes, q, asked) && SomeHolds(AlphaOf(nodes), q.net)
    ensures ValueRoundsFrom(nodes, q, asked, last).last == AlphaOf(nodes) <==>
              Known(AfterValueRound(nodes, q)) <= Queried(AfterValueRound(nodes, q))
  {
    var picks, next := AlphaOf(nodes), AfterValueRound(nodes, q);
    var all := asked + Elems(picks);
    ValueRoundSearching(nodes, q, asked);
    ValueStep(nodes, q, asked, last, all);
    NobodyToAsk(next);
    if AlphaOf(next) != [] {
      LastIsNew(next, q, all, picks);
      EmptyElems(picks);
    }
  }

  lemma NobodyToAsk(nodes: seq<Entry>)
    requires NoDup(Infos(nodes))
    ensures AlphaOf(nodes) == [] <==> Known(nodes) <= Queried(nodes)
  {
    var p := (e: Entry) => !e.queried;
    PicksNew(nodes);
    EmptyElems(AlphaOf(nodes));
    assert AlphaOf(nodes) == Take(Infos(Select(nodes, p)), ALPHA);
    SelectElems(nodes, p);
    if AlphaOf(nodes) == [] {
      assert Select(nodes, p) == [];
      assert forall i | 0 <= i < |nodes| :: nodes[i] in nodes;
    }
  }

  // The buffers before the rounds of a run, in order.
  ghost function BuffersFrom(nodes: seq<Entry>, q: Search, asked: set<NodeInfo>): seq<seq<Entry>>
    requires World(q) && Searching(nodes, q, asked)
    decreases |q.universe - asked|
  {
    var picks := AlphaOf(nodes);
    if picks == [] then []
    else if !GoesOn(nodes, q) then [nodes]
    else
      ValueRoundSearching(nodes, q, asked);
      FewerUnasked(nodes, q, asked);
      [nodes] + BuffersFrom(AfterValueRound(nodes, q), q, asked + Elems(picks))
  }

  ghost function ValueBuffers(q: Search): seq<seq<Entry>>
    requires World(q)
  {
    StartSearching(q);
    BuffersFrom(Start(q), q, {})
  }

  // The round from this buffer asks a holder and leaves nobody to ask.
  ghost predicate HolderLast(nodes: seq<Entry>, q: Search) {
    var next := AfterValueRound(nodes, q);
    SomeHolds(AlphaOf(nodes), q.net) && Known(next) <= Queried(next)
  }

  // The last round of a run has a holder if and only if some round has one and
  // leaves nobody to ask; nobody is then left at the end.
  ghost predicate Decided(r: ValueTrail, buffers: seq<seq<Entry>>, q: Search) {
    && (SomeHolds(r.last, q.net) <==> exists b | b in buffers :: HolderLast(b, q))
    && (SomeHolds(r.last, q.net) ==> AlphaOf(r.end) == [])
  }

  lemma {:induction false} HolderLastIff(nodes: seq<Entry>, q: Search, asked: set<NodeInfo>, last: seq<NodeInfo>)
    requires World(q) && Searching(nodes, q, asked) && (AlphaOf(nodes) == [] ==> !SomeHolds(last, q.net))
    ensures Decided(ValueRoundsFrom(nodes, q, asked, last), BuffersFrom(nodes, q, asked), q)
    decreases |q.universe - asked|
  {
    var picks, next, all := AlphaOf(nodes), AfterValueRound(nodes, q), asked + Elems(AlphaOf(nodes));
    if picks != [] {
      var r, buffers := ValueRoundsFrom(nodes, q, asked, last), BuffersFrom(nodes, q, asked);
      ValueRoundSearching(nodes, q, asked);
      ValueStep(nodes, q, asked, last, all);
      NobodyToAsk(next);
      if !GoesOn(nodes, q) || AlphaOf(next) == [] {
        OnlyRound(nodes, q, asked, last);
        DecideOne(nodes, q, r);
      } else {
        FewerUnasked(nodes, q, asked);
        HolderLastIff(next, q, all, picks);
        OneMoreBuffer(nodes, q, asked);
        DecideLater(nodes, q, r, ValueRoundsFrom(next, q, all, picks), buffers, BuffersFrom(next, q, all));
      }
    }
  }

  lemma DecideOne(nodes: seq<Entry>, q: Search, r: ValueTrail)
    requires r.last == AlphaOf(nodes)
    requires SomeHolds(r.last, q.net) ==> AlphaOf(r.end) == [] && HolderLast(nodes, q)
    ensures Decided(r, [nodes], q)
  {
    assert nodes in [nodes];
  }

  lemma DecideLater(nodes: seq<Entry>, q: Search, r: ValueTrail, rest: ValueTrail, buffers: seq<seq<Entry>>,
                    others: seq<seq<Entry>>)
    requires Decided(rest, others, q) && r.last == rest.last && r.end == rest.end && !HolderLast(nodes, q)
    requires forall b :: b in buffers <==> b == nodes || b in others
    ensures Decided(r, buffers, q)
  {
  }

  // A round after which the loop ends, or nobody is left, is the only one.
  lemma OnlyRound(nodes: seq<Entry>, q: Search, asked: set<NodeInfo>, last: seq<NodeInfo>)
    requires World(q) && Searching(nodes, q, asked) && AlphaOf(nodes) != []
    requires !GoesOn(nodes, q) || AlphaOf(AfterValueRound(nodes, q)) == []
    ensures BuffersFrom(nodes, q, asked) == [nodes]
    ensures var r := ValueRoundsFrom(nodes, q, asked, last);
            r.last == AlphaOf(nodes) && r.end == AfterValueRound(nodes, q)
  {
    ValueRoundSearching(nodes, q, asked);
  }

  lemma OneMoreBuffer(nodes: seq<Entry>, q: Search, asked: set<NodeInfo>)
    requires World(q) && Searching(nodes, q, asked) && AlphaOf(nodes) != [] && GoesOn(nodes, q)
    requires Searching(AfterValueRound(nodes, q), q, asked + Elems(AlphaOf(nodes)))
    ensures var rest := BuffersFrom(AfterValueRound(nodes, q), q, asked + Elems(AlphaOf(nodes)));
            forall b :: b in BuffersFrom(nodes, q, asked) <==> b == nodes || b in rest
  {
  }

  // For every search: a storer is found if and only if the closing round has a
  // holder, or a round with a holder leaves nobody to ask.
  lemma StorerFoundIff(q: Search)
    requires World(q)
    ensures StorerFound(q).Some? <==>
              SomeHolds(ClosingValuePicks(q), q.net) || exists b | b in ValueBuffers(q) :: HolderLast(b, q)
  {
    StartSearching(q);
    HolderLastIff(Start(q), q, {}, []);
  }

  // ----- the code -----

  // Asked so far, with the buffer in step.
  ghost predicate InStep(asked: seq<NodeInfo>, last: seq<NodeInfo>, q: Search, nodes: seq<Entry>) {
    Asked(asked, q) && Searching(nodes, q, Elems(asked)) && Elems(last) <= Elems(asked)
  }

  lemma AskNew(asked: seq<NodeInfo>, more: seq<NodeInfo>, q: Search, nodes: seq<Entry>)
    requires Asked(asked, q) && Searching(nodes, q, Elems(asked)) && NoDup(more)
    requires Elems(more) <= Known(nodes) - Queried(nodes)
    ensures Asked(asked + more, q)
    ensures Elems(asked + more) == Elems(asked) + Elems(more)
  {
    var all := asked + more;
    assert forall x | x in more :: x in Elems(more);
    assert forall x | x in asked :: x in Elems(asked);
    forall i, j | 0 <= i < j < |all|
      ensures all[i] != all[j]
    {
      if i < |asked| <= j {
        assert all[i] in asked && all[j] in more;
      }
    }
  }

  // The rounds so far, and those to come.
  ghost function WholeValue(nodes: seq<Entry>, q: Search, asked: seq<NodeInfo>, last: seq<NodeInfo>): ValueTrail
    requires World(q) && Searching(nodes, q, Elems(asked))
  {
    var rest := ValueRoundsFrom(nodes, q, Elems(asked), last);
    ValueTrail(asked + rest.asked, rest.last, rest.end)
  }

  // One turn of the loop.
  lemma WholeValueStep(nodes: seq<Entry>, q: Search, asked: seq<NodeInfo>, last: seq<NodeInfo>)
    requires World(q) && InStep(asked, last, q, nodes)
    ensures var picks, next := AlphaOf(nodes), AfterValueRound(nodes, q);
            && InStep(asked + picks, picks, q, next)
            && WholeValue(nodes, q, asked, last) ==
               if picks == [] then ValueTrail(asked, last, nodes)
               else if !GoesOn(nodes, q) then ValueTrail(asked + picks, picks, next)
               else WholeValue(next, q, asked + picks, picks)
    ensures AlphaOf(nodes) != [] ==> |q.universe - Elems(asked + AlphaOf(nodes))| < |q.universe - Elems(asked)|
  {
    var picks, next := AlphaOf(nodes), AfterValueRound(nodes, q);
    NextInStep(nodes, q, asked, last);
    ValueStep(nodes, q, Elems(asked), last, Elems(asked + picks));
    if picks != [] {
      FewerUnasked(nodes, q, Elems(asked));
    }
    Regroup(asked, picks, ValueRoundsFrom(next, q, Elems(asked + picks), picks).asked);
  }

  lemma NextInStep(nodes: seq<Entry>, q: Search, asked: seq<NodeInfo>, last: seq<NodeInfo>)
    requires World(q) && InStep(asked, last, q, nodes)
    ensures var picks := AlphaOf(nodes);
            && Elems(asked + picks) == Elems(asked) + Elems(picks)
            && InStep(asked + picks, picks, q, AfterValueRound(nodes, q))
  {
    PicksNew(nodes);
    AskNew(asked, AlphaOf(nodes), q, nodes);
    ValueRoundSearching(nodes, q, Elems(asked));
  }

  lemma StartInStep(q: Search)
    requires World(q)
    ensures InStep([], [], q, Start(q)) && WholeValue(Start(q), q, [], []) == ValueRounds(q)
  {
    StartSearching(q);
    FromNone(ValueRounds(q).asked);
  }

  // The rounds of find_storer; `current` are the responses of the last one.
  method RunValueRounds(buffer: LookupBuffer, net: Net, ghost q: Search)
    returns (current: seq<Response>, ghost asked: seq<NodeInfo>, ghost last: seq<NodeInfo>)
    requires World(q) && q.target == buffer.target && q.net == net && q.self == buffer.thisNode
    requires buffer.nodes == Start(q)
    modifies buffer
    ensures ValueTrail(asked, last, buffer.nodes) == ValueRounds(q)
    ensures current == LookupRound(last, net, true)
    ensures InStep(asked, last, q, buffer.nodes)
  {
    StartInStep(q);
    current, asked, last := [], [], [];
    while true
      invariant InStep(asked, last, q, buffer.nodes) && current == LookupRound(last, net, true)
      invariant WholeValue(buffer.nodes, q, asked, last) == ValueRounds(q)
      decreases |q.universe - Elems(asked)|
    {
      WholeValueStep(buffer.nodes, q, asked, last);
      CutByHolder(AlphaOf(buffer.nodes), net);
      var resolvers := buffer.GetAlphaUnqueriedNodes();
      if resolvers == [] {
        return;
      }
      current := LookupRound(resolvers, net, true);
      var goOn := buffer.RecordLookupRoundResponses(current, true);
      asked, last := asked + resolvers, resolvers;
      if !goOn {
        return;
      }
    }
  }

  // Every search asks nobody twice and only reachable contacts, so whoever is
  // found holds the chunk and is reachable.
  lemma EverySearch(q: Search)
    requires World(q)
    ensures Asked(ValueRounds(q).asked + ClosingValuePicks(q), q)
    ensures StorerFound(q).Some? ==> q.net(StorerFound(q).value).Holds? && Reachable(StorerFound(q).value, q)
  {
    var r := ValueRounds(q);
    StartInStep(q);
    ValueRoundsKeep(Start(q), q, [], []);
    UnqueriedNew(r.end, Take(r.end, K));
    AskNew(r.asked, ClosingValuePicks(q), q, r.end);
    forall x | x in LastPicks(q) || x in ClosingValuePicks(q)
      ensures Reachable(x, q)
    {
      if x in LastPicks(q) {
        assert x in Elems(r.asked);
      }
      assert x in r.asked + ClosingValuePicks(q);
    }
  }

  lemma {:induction false} ValueRoundsKeep(nodes: seq<Entry>, q: Search, asked: seq<NodeInfo>, last: seq<NodeInfo>)
    requires World(q) && InStep(asked, last, q, nodes)
    ensures var w := WholeValue(nodes, q, asked, last);
            InStep(w.asked, w.last, q, w.end)
    decreases |q.universe - Elems(asked)|
  {
    var picks, next := AlphaOf(nodes), AfterValueRound(nodes, q);
    WholeValueStep(nodes, q, asked, last);
    if picks != [] && GoesOn(nodes, q) {
      ValueRoundsKeep(next, q, asked + picks, picks);
    }
  }

  // ----- holders that answer too early -----

  // Where all holders have been asked when a round with a holder is over, the
  // search finds one if and only if that round leaves nobody to ask.
  lemma LastHoldersFound(nodes: seq<Entry>, q: Search, asked: seq<NodeInfo>, last: seq<NodeInfo>)
    requires World(q) && InStep(asked, last, q, nodes) && SomeHolds(AlphaOf(nodes), q.net)
    requires forall x | x in q.universe && q.net(x).Holds? :: x in asked + AlphaOf(nodes)
    ensures var w, next := WholeValue(nodes, q, asked, last), AfterValueRound(nodes, q);
            SomeHolds(w.last, q.net) || SomeHolds(UnqueriedResultOf(w.end), q.net) <==> Known(next) <= Queried(next)
  {
    var picks, next := AlphaOf(nodes), AfterValueRound(nodes, q);
    WholeValueStep(nodes, q, asked, last);
    NobodyToAsk(next);
    if AlphaOf(next) == [] {
      WholeValueStep(next, q, asked + picks, picks);
    } else {
      NoHolderLater(next, q, asked + picks, picks);
    }
  }

  lemma NoHolderLater(nodes: seq<Entry>, q: Search, asked: seq<NodeInfo>, last: seq<NodeInfo>)
    requires World(q) && InStep(asked, last, q, nodes) && AlphaOf(nodes) != []
    requires forall x | x in q.universe && q.net(x).Holds? :: x in asked
    ensures var w := WholeValue(nodes, q, asked, last);
            !SomeHolds(w.last, q.net) && !SomeHolds(UnqueriedResultOf(w.end), q.net)
  {
    var w := WholeValue(nodes, q, asked, last);
    LastIsNew(nodes, q, Elems(asked), last);
    ValueRoundsKeep(nodes, q, asked, last);
    ElemsOfSum(asked, ValueRoundsFrom(nodes, q, Elems(asked), last).asked);
    UnqueriedNew(w.end, Take(w.end, K));
    NoneOf(w.last, q, asked);
    NoneOf(UnqueriedResultOf(w.end), q, asked);
  }

  lemma NoneOf(xs: seq<NodeInfo>, q: Search, asked: seq<NodeInfo>)
    requires Elems(xs) <= q.universe && Elems(xs) !! Elems(asked)
    requires forall x | x in q.universe && q.net(x).Holds? :: x in asked
    ensures !SomeHolds(xs, q.net)
  {
    assert forall x | x in xs :: x in Elems(xs);
    assert forall x | x in asked :: x in Elems(asked);
  }

  // In particular, if all holders are asked in the first round.
  lemma FirstHoldersFound(q: Search)
    requires World(q) && SomeHolds(AlphaOf(Start(q)), q.net)
    requires forall x | x in q.universe && q.net(x).Holds? :: x in AlphaOf(Start(q))
    ensures var next := AfterValueRound(Start(q), q);
            StorerFound(q).Some? <==> Known(next) <= Queried(next)
  {
    StartInStep(q);
    LastHoldersFound(Start(q), q, [], []);
  }
}
