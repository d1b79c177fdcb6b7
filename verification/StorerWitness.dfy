// Networks on which a storer answers and is not found.
module StorerWitness {
  import opened Keys
  import opened SmallKeys
  import opened Contacts
  import opened Closest
  import opened Common
  import opened Lookup
  import opened LookupBuffers
  import opened Rounds
  import opened FindNodes
  import opened LookupRuns
  import opened FindStorers

  // The search starts from a and h, a being closer. The only holder is h, and a
  // tells of a further contact c.
  ghost predicate EarlyHolder(q: Search, a: NodeInfo, h: NodeInfo, c: NodeInfo) {
    && q.init == [a, h] && DistanceTo(q.target)(a) < DistanceTo(q.target)(h)
    && (forall x | x in q.universe :: q.net(x).Holds? <==> x == h)
    && q.net(a).Told? && c in q.net(a).contacts && c != a && c != h && c != q.self
  }

  lemma TwoClosest(t: Key, a: NodeInfo, h: NodeInfo, s: set<NodeInfo>)
    requires DistanceTo(t)(a) < DistanceTo(t)(h) && s == Elems([a, h])
    ensures ClosestOf([a, h], s, DistanceTo(t), ALPHA)
  {
    IncreasingNoDup([a, h], DistanceTo(t));
  }

  lemma FirstPicks(q: Search, a: NodeInfo, h: NodeInfo, c: NodeInfo)
    requires World(q) && EarlyHolder(q, a, h, c)
    ensures AlphaOf(Start(q)) == [a, h]
  {
    var nodes, s := Start(q), Elems(q.init);
    StartBuffered(q);
    assert Met(q, {}) == s;
    AlphaIsClosest(nodes, q.target);
    assert Known(nodes) - Queried(nodes) == s;
    TwoClosest(q.target, a, h, s);
    ClosestUnique(AlphaOf(nodes), [a, h], s, DistanceTo(q.target), ALPHA);
  }

  // Recording stops at the holder's answer, behind that of a.
  lemma RecordsUpToHolder(m: seq<Entry>, q: Search, a: NodeInfo, h: NodeInfo)
    requires q.net(a).Told? && q.net(h).Holds?
    ensures var rs := LookupRound([a, h], q.net, true);
            RecordedNodes(m, q.target, q.self, rs, true) ==
            AbsorbAll(m, q.self, [NodesSuccessful(a, q.net(a).contacts)], true)
  {
    var rs := LookupRound([a, h], q.net, true);
    assert rs[0] == NodesSuccessful(a, q.net(a).contacts) && rs[1] == ValueSuccessful(h);
    assert rs[1..][0] == rs[1];
    assert RecordedPrefix(rs, true) == 1;
    assert rs[..1] == [rs[0]];
  }

  // So c is known after the first round, and has not been asked.
  lemma LeavesOne(q: Search, a: NodeInfo, h: NodeInfo, c: NodeInfo)
    requires World(q) && EarlyHolder(q, a, h, c)
    ensures var next := AfterValueRound(Start(q), q);
            c in Known(next) && c !in Queried(next)
  {
    var m := AfterPick(Start(q));
    FirstPicks(q, a, h, c);
    FirstMarks(q);
    assert a in Elems(q.init) && h in Elems(q.init) && c !in Elems(q.init);
    RecordsUpToHolder(m, q, a, h);
    LearnsContact(m, q, a, c);
  }

  lemma FirstMarks(q: Search)
    requires World(q) && AlphaOf(Start(q)) == q.init
    ensures var m := AfterPick(Start(q));
            NoDup(Infos(m)) && Known(m) == Elems(q.init) == Queried(m)
  {
    StartBuffered(q);
    StartSearching(q);
    ValuePickSets(Start(q), q.universe);
    assert Met(q, {}) == Elems(q.init);
  }

  lemma LearnsContact(m: seq<Entry>, q: Search, a: NodeInfo, c: NodeInfo)
    requires World(q) && NoDup(Infos(m)) && a in Known(m) && Known(m) <= q.universe
    requires q.net(a).Told? && c in q.net(a).contacts && c != q.self
    ensures var r := AbsorbAll(m, q.self, [NodesSuccessful(a, q.net(a).contacts)], true);
            c in Known(r) && Queried(r) == Queried(m)
  {
    var rs := [NodesSuccessful(a, q.net(a).contacts)];
    assert forall x | x in q.net(a).contacts :: x in ToldBy(q.net, q.universe);
    AbsorbAllSets(m, q.self, rs, true, q.universe);
    assert c in Reported(rs, true) by {
      assert c in rs[0].kClosest;
    }
    assert Refused(rs, true) == {};
  }

  // The holder is asked in the first round and says so, and yet the search
  // ends without a storer.
  lemma HolderForgotten(q: Search, a: NodeInfo, h: NodeInfo, c: NodeInfo)
    requires World(q) && EarlyHolder(q, a, h, c)
    ensures h in AlphaOf(Start(q)) && q.net(h).Holds?
    ensures StorerFound(q) == None
  {
    FirstPicks(q, a, h, c);
    LeavesOne(q, a, h, c);
    assert h in q.init && h in Elems(q.init);
    FirstHoldersFound(q);
  }

  // ----- one such network -----

  // Of three contacts the first tells of the third, the second holds the value,
  // and the third is silent.
  function ForgetfulNet(c: seq<NodeInfo>): Net
    requires |c| == 3
  {
    (x: NodeInfo) => if x == c[0] then Told([c[2]]) else if x == c[1] then Holds else Mute
  }

  lemma ForgetfulWorld(q: Search, c: seq<NodeInfo>)
    requires |c| == 3 && Increasing(c, DistanceTo(q.target)) && q.self !in c
    requires q.net == ForgetfulNet(c) && q.universe == Elems(c) && q.init == c[..2]
    ensures World(q) && EarlyHolder(q, c[0], c[1], c[2])
  {
    IncreasingNoDup(c, DistanceTo(q.target));
    assert forall i | 0 <= i < 3 :: c[i] in c;
    assert forall i | 0 <= i < 2 :: c[..2][i] == c[i];
    assert c[..2] == [c[0], c[1]];
  }

  lemma SmallForgotten(own: bv8, bytes: seq<bv8>)
    requires |bytes| == 3 && Ascending(bytes) && own !in bytes
    ensures var c := ContactsOf(bytes);
            var q := Search(Small(0), Elems(c), ForgetfulNet(c), c[..2], Contact(own));
            World(q) && q.net(c[1]).Holds? && c[1] in AlphaOf(Start(q)) && StorerFound(q) == None
  {
    var c := ContactsOf(bytes);
    var q := Search(Small(0), Elems(c), ForgetfulNet(c), c[..2], Contact(own));
    ContactsInOrder(bytes);
    NotAmong(bytes, own);
    ForgetfulWorld(q, c);
    HolderForgotten(q, c[0], c[1], c[2]);
  }

  // Node 4 looks for the chunk 0, starting from 1 and 2: 2 says that it holds
  // the chunk, and no storer is found.
  lemma StorerNotFound()
    ensures var c := ContactsOf([1, 2, 3]);
            var q := Search(Small(0), Elems(c), ForgetfulNet(c), c[..2], Contact(4));
            World(q) && q.net(c[1]).Holds? && c[1] in AlphaOf(Start(q)) && StorerFound(q) == None
  {
    SmallForgotten(4, [1, 2, 3]);
  }
}
