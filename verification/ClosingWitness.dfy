// Networks on which a lookup returns a contact it met early and never asked.
module ClosingWitness {
  import opened Keys
  import opened SmallKeys
  import opened Contacts
  import opened Closest
  import opened Lookup
  import opened Rounds
  import opened FindNodes
  import opened LookupRuns
  import opened LookupWitness

  // If the closing round reports nobody new and fewer contacts answered than
  // are returned, then somebody returned was known before and never asked.
  lemma UnheardResult(q: Search)
    requires World(q) && Met(q, Elems(AllAsked(q))) == Met(q, Elems(AlphaRounds(q).asked))
    requires |Tellers(q.net, Elems(AllAsked(q)))| < |LookupResult(q)|
    ensures exists x | x in LookupResult(q) :: x in Met(q, Elems(AlphaRounds(q).asked)) && x !in AllAsked(q)
  {
    var result, asked := LookupResult(q), AllAsked(q);
    ResultOfAllMet(q);
    ResultMembers(q);
    IncreasingNoDup(result, DistanceTo(q.target));
    if Elems(result) <= Tellers(q.net, Elems(asked)) {
      SubsetSize(Elems(result), Tellers(q.net, Elems(asked)));
    }
    var x :| x in Elems(result) && x !in Tellers(q.net, Elems(asked));
    assert x in result && x in Met(q, Elems(asked));
    assert x in asked ==> x in Elems(asked);
  }

  // 24 contacts in order of distance: the first one tells of all others, the
  // next three are silent, and the rest know nobody.
  ghost predicate Crowd(q: Search, c: seq<NodeInfo>) {
    && |c| == 24 && Increasing(c, DistanceTo(q.target)) && q.self !in c
    && q.universe == Elems(c) && q.init == [c[0]] && q.net(c[0]) == Told(c[1..])
    && (forall i | 1 <= i < 4 :: q.net(c[i]) == Mute) && (forall i | 4 <= i < 24 :: q.net(c[i]) == Told([]))
  }

  lemma CrowdWorld(q: Search, c: seq<NodeInfo>)
    requires Crowd(q, c)
    ensures World(q)
  {
    assert c[0] in c;
    forall x | x in ToldBy(q.net, q.universe)
      ensures x in q.universe
    {
      var y :| y in q.universe && q.net(y).Told? && x in q.net(y).contacts;
      OnlyFirstTells(q, c, y);
    }
  }

  lemma OnlyFirstTells(q: Search, c: seq<NodeInfo>, y: NodeInfo)
    requires Crowd(q, c) && y in c && q.net(y).Told? && q.net(y).contacts != []
    ensures y == c[0]
  {
    var i :| 0 <= i < 24 && c[i] == y;
  }

  // Whoever asks the first contact meets everybody.
  lemma CrowdMet(q: Search, c: seq<NodeInfo>, asked: set<NodeInfo>)
    requires Crowd(q, c) && c[0] in asked && asked <= q.universe
    ensures Met(q, asked) == Elems(c)
  {
    assert Elems(q.init) == {c[0]};
    FirstAndRest(c);
    forall x
      ensures x in ToldBy(q.net, asked) <==> x in c[1..]
    {
      if x in ToldBy(q.net, asked) {
        var y :| y in asked && q.net(y).Told? && x in q.net(y).contacts;
        OnlyFirstTells(q, c, y);
      }
    }
    assert q.self !in c[1..];
  }

  lemma FirstAndRest(c: seq<NodeInfo>)
    requires c != []
    ensures Elems(c) == {c[0]} + Elems(c[1..])
  {
    assert c == [c[0]] + c[1..];
    ElemsOfSum([c[0]], c[1..]);
  }

  lemma CrowdTrap(q: Search, c: seq<NodeInfo>)
    requires Crowd(q, c)
    ensures SilentTrap(q, {c[0]}, Elems(c[1..]), Elems(c[1..4]))
  {
    assert Elems(q.init) == {c[0]};
    assert {c[0]} <= q.universe;
    CrowdMet(q, c, {c[0]});
    RestWithoutFirst(c, DistanceTo(q.target));
    assert c[0] in {c[0]};
    CrowdSilent(q, c, Elems(c[1..]), Elems(c[1..4]));
  }

  lemma RestWithoutFirst(c: seq<NodeInfo>, d: NodeInfo -> nat)
    requires c != [] && Increasing(c, d)
    ensures Elems(c) - {c[0]} == Elems(c[1..])
  {
    FirstAndRest(c);
    IncreasingNoDup(c, d);
  }

  lemma CrowdSilent(q: Search, c: seq<NodeInfo>, u: set<NodeInfo>, silent: set<NodeInfo>)
    requires Crowd(q, c) && u == Elems(c[1..]) && silent == Elems(c[1..4])
    ensures silent <= u && |silent| == 3 && forall m | m in silent :: !q.net(m).Told?
    ensures forall m, y | m in silent && y in u && y !in silent :: DistanceTo(q.target)(m) < DistanceTo(q.target)(y)
  {
    FrontBeforeRest(c[1..], 3, DistanceTo(q.target));
    assert c[1..][..3] == c[1..4];
    forall m | m in silent
      ensures !q.net(m).Told?
    {
      var i :| 1 <= i < 4 && c[i] == m;
    }
  }

  // The closing round asks among the first 20.
  lemma CrowdAsked(q: Search, c: seq<NodeInfo>)
    requires World(q) && Crowd(q, c)
    ensures c[0] in AlphaRounds(q).asked
    ensures Elems(AlphaRounds(q).asked) <= Elems(AllAsked(q)) <= Elems(c[..K])
  {
    var before, end := Elems(AlphaRounds(q).asked), AlphaRounds(q).end;
    CrowdTrap(q, c);
    TrapRounds(q, {c[0]}, Elems(c[1..]), Elems(c[1..4]));
    AlphaRoundsEnd(q);
    CrowdMet(q, c, before);
    InOrderInfos(end, q.target);
    InfosElems(end);
    IncreasingUnique(Infos(end), c, DistanceTo(q.target));
    UnqueriedInFront(end);
    ElemsOfSum(AlphaRounds(q).asked, ClosingPicks(q));
    FirstFour(c);
  }

  lemma FirstFour(c: seq<NodeInfo>)
    requires |c| >= K
    ensures {c[0]} + Elems(c[1..4]) <= Elems(c[..K])
  {
    assert c[..K][0] == c[0] && c[1..4] == c[..K][1..4];
  }

  // Of these, 17 answer at most.
  lemma CrowdHeard(q: Search, c: seq<NodeInfo>, asked: set<NodeInfo>)
    requires Crowd(q, c) && asked <= Elems(c[..K])
    ensures |Tellers(q.net, asked)| < K
  {
    var heard := [c[0]] + c[4..K];
    IncreasingNoDup(heard, DistanceTo(q.target));
    forall x | x in Tellers(q.net, asked)
      ensures x in heard
    {
      var i :| 0 <= i < K && c[i] == x;
      if i >= 4 {
        assert heard[i - 3] == x;
      }
    }
    SubsetSize(Tellers(q.net, asked), Elems(heard));
  }

  // But 21 contacts are not known to be silent.
  lemma CrowdAlive(q: Search, c: seq<NodeInfo>, asked: set<NodeInfo>)
    requires Crowd(q, c) && c[0] in asked && asked <= q.universe
    ensures |Alive(q, asked)| >= K
  {
    var alive := [c[0]] + c[4..];
    IncreasingNoDup(alive, DistanceTo(q.target));
    CrowdMet(q, c, asked);
    forall x | x in alive
      ensures x in Alive(q, asked)
    {
      assert x in c && q.net(x).Told?;
    }
    SubsetSize(Elems(alive), Alive(q, asked));
  }

  // The closing round asks what is left of the first K; three of them are
  // silent, so contacts behind them are returned unasked.
  lemma CrowdUnheard(q: Search, c: seq<NodeInfo>)
    requires Crowd(q, c)
    ensures World(q)
    ensures exists x | x in LookupResult(q) :: x in Met(q, Elems(AlphaRounds(q).asked)) && x !in AllAsked(q)
  {
    CrowdWorld(q, c);
    var before, all := Elems(AlphaRounds(q).asked), Elems(AllAsked(q));
    CrowdAsked(q, c);
    assert Elems(c[..K]) <= q.universe;
    CrowdMet(q, c, before);
    CrowdMet(q, c, all);
    CrowdHeard(q, c, all);
    CrowdAlive(q, c, all);
    ResultOfAllMet(q);
    UnheardResult(q);
  }

  // ----- one such network -----

  function CrowdNet(c: seq<NodeInfo>): Net
    requires |c| == 24
  {
    (x: NodeInfo) => if x == c[0] then Told(c[1..]) else if x in c[1..4] then Mute else Told([])
  }

  ghost function CrowdSearch(own: bv8, bytes: seq<bv8>): Search
    requires |bytes| == 24
  {
    var c := ContactsOf(bytes);
    Search(Small(0), Elems(c), CrowdNet(c), [c[0]], Contact(own))
  }

  lemma CrowdReplies(c: seq<NodeInfo>)
    requires |c| == 24 && NoDup(c)
    ensures CrowdNet(c)(c[0]) == Told(c[1..]) && forall i | 1 <= i < 4 :: CrowdNet(c)(c[i]) == Mute
    ensures forall i | 4 <= i < 24 :: CrowdNet(c)(c[i]) == Told([])
  {
    assert forall i | 1 <= i < 4 :: c[1..4][i - 1] == c[i];
  }

  lemma SmallCrowd(own: bv8, bytes: seq<bv8>)
    requires |bytes| == 24 && Ascending(bytes) && own !in bytes
    ensures var q := CrowdSearch(own, bytes);
            && World(q)
            && exists x | x in LookupResult(q) :: x in Met(q, Elems(AlphaRounds(q).asked)) && x !in AllAsked(q)
  {
    var c := ContactsOf(bytes);
    ContactsInOrder(bytes);
    NotAmong(bytes, own);
    IncreasingNoDup(c, DistanceTo(Small(0)));
    CrowdReplies(c);
    CrowdUnheard(CrowdSearch(own, bytes), c);
  }

  function OneTo24(): (r: seq<bv8>)
    ensures |r| == 24
  {
    [1, 2, 3, 4, 5, 6, 7, 8] + [9, 10, 11, 12, 13, 14, 15, 16] + [17, 18, 19, 20, 21, 22, 23, 24]
  }

  lemma AscendingJoin(a: seq<bv8>, b: seq<bv8>)
    requires a != [] && b != [] && Ascending(a) && Ascending(b) && a[|a| - 1] < b[0]
    ensures Ascending(a + b)
  {
    var s := a + b;
    forall i, j | 0 <= i < j < |s|
      ensures s[i] < s[j]
    {
      if i < |a| <= j {
        assert a[i] <= a[|a| - 1] && b[0] <= b[j - |a|];
      }
    }
  }

  lemma OneTo24Ascends()
    ensures Ascending(OneTo24()) && 25 !in OneTo24()
  {
    AscendingJoin([1, 2, 3, 4, 5, 6, 7, 8], [9, 10, 11, 12, 13, 14, 15, 16]);
    AscendingJoin([1, 2, 3, 4, 5, 6, 7, 8] + [9, 10, 11, 12, 13, 14, 15, 16], [17, 18, 19, 20, 21, 22, 23, 24]);
  }

  // Node 25 looks for 0 among the contacts 1 to 24, starting from 1.
  lemma ResultNeverAsked()
    ensures var q := CrowdSearch(25, OneTo24());
            && World(q)
            && exists x | x in LookupResult(q) :: x in Met(q, Elems(AlphaRounds(q).asked)) && x !in AllAsked(q)
  {
    OneTo24Ascends();
    SmallCrowd(25, OneTo24());
  }
}
