// The two-cursor walk over the buckets, on values.
module BucketWalk {
  import opened Keys
  import opened Contacts
  import opened Closest
  import opened Buckets
  import opened Geometry

  type Table = seq<seq<NodeInfo>>

  ghost predicate TableOk(own: Key, tbl: Table) {
    && |tbl| == NUM_BUCKETS
    && (forall i | 0 <= i < NUM_BUCKETS :: BucketOk(tbl[i]))
    && (forall i, x | 0 <= i < NUM_BUCKETS && x in tbl[i] :: x.id != own && BucketOf(own, x.id) == i)
  }

  // The contacts of the buckets lo, ..., hi - 1.
  ghost function Entries(tbl: Table, lo: int, hi: int): set<NodeInfo>
    requires 0 <= lo && hi <= |tbl|
  {
    set i, x | lo <= i < hi && x in tbl[i] :: x
  }

  ghost function AllEntries(tbl: Table): set<NodeInfo> {
    Entries(tbl, 0, |tbl|)
  }

  lemma InEntries(own: Key, tbl: Table, lo: int, hi: int, x: NodeInfo)
    requires TableOk(own, tbl) && 0 <= lo && hi <= |tbl|
    ensures x in Entries(tbl, lo, hi) <==> x in AllEntries(tbl) && lo <= BucketOf(own, x.id) < hi
    ensures x in AllEntries(tbl) ==> x.id != own && x in tbl[BucketOf(own, x.id)]
  {
  }

  // Ids are unique across the whole table, so distances are.
  lemma TableDistinct(own: Key, tbl: Table, t: Key)
    requires TableOk(own, tbl)
    ensures DistinctIds(AllEntries(tbl))
    ensures NoTies(AllEntries(tbl), DistanceTo(t))
  {
    forall x, y | x in AllEntries(tbl) && y in AllEntries(tbl) && x.id == y.id
      ensures x == y
    {
      assert x in tbl[BucketOf(own, x.id)] && y in tbl[BucketOf(own, x.id)];
    }
    DistinctIdsNoTies(AllEntries(tbl), t);
  }

  // A list holds exactly the contacts of the buckets lo, ..., hi - 1, each once.
  ghost predicate Collected(s: seq<NodeInfo>, tbl: Table, lo: int, hi: int)
    requires 0 <= lo && hi <= |tbl|
  {
    NoDup(s) && Elems(s) == Entries(tbl, lo, hi)
  }

  lemma CollectNone(tbl: Table, lo: int)
    requires 0 <= lo <= |tbl|
    ensures Collected([], tbl, lo, lo)
  {
  }

  lemma CollectMore(own: Key, tbl: Table, s: seq<NodeInfo>, lo: int, hi: int, i: int)
    requires TableOk(own, tbl) && 0 <= lo <= hi <= |tbl| && Collected(s, tbl, lo, hi)
    requires 0 <= i < |tbl| && (i == hi || i == lo - 1)
    ensures Collected(s + tbl[i], tbl, if i == hi then lo else i, if i == hi then hi + 1 else hi)
  {
    CollectDisjoint(own, tbl, s, lo, hi, i);
    var a, b := if i == hi then lo else i, if i == hi then hi + 1 else hi;
    forall x
      ensures x in Elems(s + tbl[i]) <==> x in Entries(tbl, a, b)
    {
      assert x in Elems(s) <==> x in Entries(tbl, lo, hi);
    }
  }

  lemma CollectDisjoint(own: Key, tbl: Table, s: seq<NodeInfo>, lo: int, hi: int, i: int)
    requires TableOk(own, tbl) && 0 <= lo <= hi <= |tbl| && Collected(s, tbl, lo, hi)
    requires 0 <= i < |tbl| && !(lo <= i < hi)
    ensures NoDup(s + tbl[i])
  {
    forall x | x in s
      ensures x !in tbl[i]
    {
      assert x in Elems(s);
      InEntries(own, tbl, lo, hi, x);
    }
    assert BucketOk(tbl[i]);
    var all := s + tbl[i];
    forall j, k | 0 <= j < k < |all|
      ensures all[j] != all[k]
    {
      if j < |s| <= k {
        assert all[j] in s && all[k] in tbl[i];
      }
    }
  }

  lemma CollectOne(own: Key, tbl: Table, i: int)
    requires TableOk(own, tbl) && 0 <= i < |tbl|
    ensures Collected(tbl[i], tbl, i, i + 1)
  {
  }

  // Sorting a collected range and cutting at n gives its n closest.
  lemma SortedRange(own: Key, tbl: Table, s: seq<NodeInfo>, lo: int, hi: int, t: Key, n: nat)
    requires TableOk(own, tbl) && 0 <= lo && hi <= |tbl| && Collected(s, tbl, lo, hi)
    ensures var sorted := StableSort(s, DistanceTo(t));
            ClosestOf(sorted[..Min(n, |sorted|)], Entries(tbl, lo, hi), DistanceTo(t), n)
    ensures |s| == |Entries(tbl, lo, hi)|
  {
    NoDupCardinality(s);
    TableDistinct(own, tbl, t);
    assert Elems(s) <= AllEntries(tbl);
    SortIncreasing(s, DistanceTo(t));
    PrefixIsClosest(StableSort(s, DistanceTo(t)), DistanceTo(t), n);
  }

  // ----- the cursors -----

  // The inner loop: go down until as much was taken below as above.
  function Descend(tbl: Table, down: int, gotDown: nat, gotUp: nat): (r: int)
    requires -1 <= down < |tbl|
    ensures -1 <= r <= down
    decreases down + 1
  {
    if gotDown < gotUp && down >= 0 then Descend(tbl, down - 1, gotDown + |tbl[down]|, gotUp) else down
  }

  datatype Cursors = Cursors(up: int, down: int)

  // One turn of the outer loop.
  function Turn(tbl: Table, c: Cursors): (r: Cursors)
    requires -1 <= c.down < c.up <= |tbl|
    ensures -1 <= r.down <= c.down && c.up <= r.up <= |tbl|
    ensures r == c ==> c.down == -1 && c.up == |tbl|
  {
    var gotUp := if c.up < |tbl| then |tbl[c.up]| else 0;
    Cursors(
      if c.up < |tbl| then c.up + 1 else c.up,
      if c.down >= 0 then Descend(tbl, c.down - 1, |tbl[c.down]|, gotUp) else c.down)
  }

  // Where the cursors stand when the loop ends; it depends on bucket sizes only.
  ghost function WalkFrom(tbl: Table, c: Cursors, n: nat): (r: Cursors)
    requires -1 <= c.down < c.up <= |tbl|
    ensures -1 <= r.down <= c.down && c.up <= r.up <= |tbl|
    decreases |tbl| - c.up + c.down + 1
  {
    if |Entries(tbl, c.down + 1, c.up)| >= n || Turn(tbl, c) == c then c
    else WalkFrom(tbl, Turn(tbl, c), n)
  }

  // It ends with n contacts, or with all buckets visited.
  lemma {:induction false} WalkCovers(tbl: Table, c: Cursors, n: nat)
    requires -1 <= c.down < c.up <= |tbl|
    ensures var r := WalkFrom(tbl, c, n);
            |Entries(tbl, r.down + 1, r.up)| >= n || (r.down == -1 && r.up == |tbl|)
    decreases |tbl| - c.up + c.down + 1
  {
    if |Entries(tbl, c.down + 1, c.up)| < n && Turn(tbl, c) != c {
      WalkCovers(tbl, Turn(tbl, c), n);
    }
  }

  lemma WalkUnfold(tbl: Table, c: Cursors, s: seq<NodeInfo>, n: nat)
    requires -1 <= c.down < c.up <= |tbl| && Collected(s, tbl, c.down + 1, c.up)
    ensures |s| >= n || (c.down == -1 && c.up == |tbl|) ==> WalkFrom(tbl, c, n) == c
    ensures |s| < n ==> WalkFrom(tbl, c, n) == WalkFrom(tbl, Turn(tbl, c), n)
  {
    NoDupCardinality(s);
  }

  ghost function Walk(own: Key, tbl: Table, t: Key, n: nat): (r: Cursors)
    requires own != t && |tbl| == NUM_BUCKETS
    ensures -1 <= r.down < BucketOf(own, t) < r.up <= NUM_BUCKETS
    ensures |Entries(tbl, r.down + 1, r.up)| >= n || (r.down == -1 && r.up == NUM_BUCKETS)
  {
    WalkCovers(tbl, Cursors(BucketOf(own, t) + 1, BucketOf(own, t) - 1), n);
    WalkFrom(tbl, Cursors(BucketOf(own, t) + 1, BucketOf(own, t) - 1), n)
  }

  ghost function Visited(own: Key, tbl: Table, t: Key, n: nat): set<NodeInfo>
    requires own != t && |tbl| == NUM_BUCKETS
  {
    var c := Walk(own, tbl, t, n);
    Entries(tbl, c.down + 1, c.up)
  }

  // ----- the loops of get_n_closest -----

  // The inner loop: take buckets downwards to match the amount taken above.
  method TakeDown(ghost own: Key, tbl: Table, got: seq<NodeInfo>, down: int, up: int, gotUp: nat)
    returns (result: seq<NodeInfo>, iDown: int)
    requires TableOk(own, tbl) && 0 <= down < up <= |tbl|
    requires Collected(got, tbl, down + 1, up)
    ensures -1 <= iDown < down && iDown == Descend(tbl, down - 1, |tbl[down]|, gotUp)
    ensures Collected(result, tbl, iDown + 1, up)
  {
    CollectMore(own, tbl, got, down + 1, up, down);
    result, iDown := got + tbl[down], down - 1;
    var gotDown: nat := |tbl[down]|;
    while gotDown < gotUp && iDown >= 0
      invariant -1 <= iDown < down
      invariant Collected(result, tbl, iDown + 1, up)
      invariant Descend(tbl, iDown, gotDown, gotUp) == Descend(tbl, down - 1, |tbl[down]|, gotUp)
      decreases iDown
    {
      CollectMore(own, tbl, result, iDown + 1, up, iDown);
      gotDown := gotDown + |tbl[iDown]|;
      result := result + tbl[iDown];
      iDown := iDown - 1;
    }
  }

  // One turn of the outer loop: one bucket up, then down to match.
  method OneTurn(ghost own: Key, tbl: Table, got: seq<NodeInfo>, up: int, down: int)
    returns (takenSome: bool, result: seq<NodeInfo>, iUp: int, iDown: int)
    requires TableOk(own, tbl) && -1 <= down < up <= |tbl|
    requires Collected(got, tbl, down + 1, up)
    ensures Cursors(iUp, iDown) == Turn(tbl, Cursors(up, down))
    ensures takenSome <==> up < |tbl| || down >= 0
    ensures Collected(result, tbl, iDown + 1, iUp)
  {
    takenSome, result, iUp, iDown := false, got, up, down;
    var gotUp: nat := 0;
    if iUp < |tbl| {
      CollectMore(own, tbl, result, iDown + 1, iUp, iUp);
      gotUp := |tbl[iUp]|;
      result := result + tbl[iUp];
      iUp := iUp + 1;
      takenSome := true;
    }
    if iDown >= 0 {
      result, iDown := TakeDown(own, tbl, result, iDown, iUp, gotUp);
      takenSome := true;
    }
  }

  // Everything between the cursors is collected, and the walk from them ends at `end`.
  ghost predicate Outwards(tbl: Table, s: seq<NodeInfo>, c: Cursors, n: nat, end: Cursors) {
    && -1 <= c.down < c.up <= |tbl|
    && Collected(s, tbl, c.down + 1, c.up) && WalkFrom(tbl, c, n) == end
  }

  lemma OutwardsNext(tbl: Table, s: seq<NodeInfo>, c: Cursors, n: nat, end: Cursors)
    requires Outwards(tbl, s, c, n, end) && |s| < n
    ensures WalkFrom(tbl, Turn(tbl, c), n) == end
  {
    WalkUnfold(tbl, c, s, n);
  }

  lemma OutwardsEnd(tbl: Table, s: seq<NodeInfo>, c: Cursors, n: nat, end: Cursors)
    requires Outwards(tbl, s, c, n, end) && (|s| >= n || c == Cursors(|tbl|, -1))
    ensures c == end
  {
    WalkUnfold(tbl, c, s, n);
  }

  // The outer loop, outwards from bucket b.
  method CollectAround(ghost own: Key, tbl: Table, b: int, n: nat) returns (result: seq<NodeInfo>)
    requires TableOk(own, tbl) && 0 <= b < |tbl|
    ensures var c := WalkFrom(tbl, Cursors(b + 1, b - 1), n);
            Collected(result, tbl, c.down + 1, c.up)
  {
    ghost var end := WalkFrom(tbl, Cursors(b + 1, b - 1), n);
    result := tbl[b];
    CollectOne(own, tbl, b);
    var takenSome := true;
    var iUp: int, iDown: int := b + 1, b - 1;
    while |result| < n && takenSome
      invariant Outwards(tbl, result, Cursors(iUp, iDown), n, end)
      invariant takenSome || Cursors(iUp, iDown) == Cursors(|tbl|, -1)
      decreases |tbl| - iUp + iDown + 1, takenSome
    {
      OutwardsNext(tbl, result, Cursors(iUp, iDown), n, end);
      takenSome, result, iUp, iDown := OneTurn(own, tbl, result, iUp, iDown);
    }
    OutwardsEnd(tbl, result, Cursors(iUp, iDown), n, end);
  }

  // ----- when the walk is exact -----

  // Visited contacts of near buckets.
  ghost function NearVisited(own: Key, tbl: Table, t: Key, n: nat): set<NodeInfo>
    requires own != t && TableOk(own, tbl)
  {
    set x | x in Visited(own, tbl, t, n) && x.id != own && Near(own, t, BucketOf(own, x.id))
  }

  // The lower buckets the walk never reached.
  ghost function Skipped(own: Key, tbl: Table, t: Key, n: nat): set<NodeInfo>
    requires own != t && |tbl| == NUM_BUCKETS
  {
    Entries(tbl, 0, Walk(own, tbl, t, n).down + 1)
  }

  // The walk finds the n closest if and only if it skipped nothing below, or
  // the near buckets it went through already hold n contacts.
  ghost predicate WalkSuffices(own: Key, tbl: Table, t: Key, n: nat)
    requires own != t && TableOk(own, tbl)
  {
    Skipped(own, tbl, t, n) == {} || |NearVisited(own, tbl, t, n)| >= n
  }

  lemma VisitedSize(own: Key, tbl: Table, t: Key, n: nat)
    requires own != t && TableOk(own, tbl)
    ensures Visited(own, tbl, t, n) <= AllEntries(tbl)
    ensures |Visited(own, tbl, t, n)| >= n || Visited(own, tbl, t, n) == AllEntries(tbl)
    ensures Min(n, |Visited(own, tbl, t, n)|) == Min(n, |AllEntries(tbl)|)
  {
    SubsetSize(Visited(own, tbl, t, n), AllEntries(tbl));
  }

  // A contact the walk left out, against a visited one.
  lemma LeftOutOrder(own: Key, tbl: Table, t: Key, n: nat, x: NodeInfo, y: NodeInfo)
    requires own != t && TableOk(own, tbl)
    requires x in AllEntries(tbl) && x !in Visited(own, tbl, t, n) && y in Visited(own, tbl, t, n)
    ensures x !in Skipped(own, tbl, t, n) ==> Dist(y.id, t) < Dist(x.id, t)
    ensures x in Skipped(own, tbl, t, n) ==> (Dist(y.id, t) < Dist(x.id, t) <==> y in NearVisited(own, tbl, t, n))
    ensures x in Skipped(own, tbl, t, n) ==> (Dist(x.id, t) < Dist(y.id, t) <==> y !in NearVisited(own, tbl, t, n))
  {
    var c := Walk(own, tbl, t, n);
    InEntries(own, tbl, c.down + 1, c.up, x);
    InEntries(own, tbl, c.down + 1, c.up, y);
    InEntries(own, tbl, 0, c.down + 1, x);
    if x in Skipped(own, tbl, t, n) {
      HigherBucketDecides(own, t, x.id, y.id);
    } else {
      NearAtTarget(own, t, BucketOf(own, x.id));
      HigherBucketDecides(own, t, y.id, x.id);
    }
  }

  // With n near contacts visited, only near contacts are returned.
  lemma OnlyNearReturned(own: Key, tbl: Table, t: Key, n: nat, r: seq<NodeInfo>)
    requires own != t && TableOk(own, tbl)
    requires ClosestOf(r, Visited(own, tbl, t, n), DistanceTo(t), n)
    requires |NearVisited(own, tbl, t, n)| >= n
    ensures Elems(r) <= NearVisited(own, tbl, t, n)
  {
    var near := NearVisited(own, tbl, t, n);
    var c := Walk(own, tbl, t, n);
    forall z, y | z in near && y in Visited(own, tbl, t, n) && y !in near
      ensures DistanceTo(t)(z) < DistanceTo(t)(y)
    {
      InEntries(own, tbl, c.down + 1, c.up, y);
      InEntries(own, tbl, c.down + 1, c.up, z);
      NearBeforeFar(own, t, z.id, y.id);
    }
    ClosestWithin(r, Visited(own, tbl, t, n), near, DistanceTo(t), n);
  }

  // The walk against the full scan: same answer if and only if WalkSuffices.
  lemma WalkExactness(own: Key, tbl: Table, t: Key, n: nat, fast: seq<NodeInfo>, slow: seq<NodeInfo>)
    requires own != t && TableOk(own, tbl)
    requires ClosestOf(fast, Visited(own, tbl, t, n), DistanceTo(t), n)
    requires ClosestOf(slow, AllEntries(tbl), DistanceTo(t), n)
    ensures fast == slow <==> n == 0 || WalkSuffices(own, tbl, t, n)
  {
    VisitedSize(own, tbl, t, n);
    if n == 0 || WalkSuffices(own, tbl, t, n) {
      SufficesIsExact(own, tbl, t, n, fast);
      ClosestUnique(fast, slow, AllEntries(tbl), DistanceTo(t), n);
    } else {
      var x, y := Misplaced(own, tbl, t, n, fast);
      assert DistanceTo(t)(x) < DistanceTo(t)(y);
    }
  }

  lemma SufficesIsExact(own: Key, tbl: Table, t: Key, n: nat, fast: seq<NodeInfo>)
    requires own != t && TableOk(own, tbl)
    requires ClosestOf(fast, Visited(own, tbl, t, n), DistanceTo(t), n)
    requires n == 0 || WalkSuffices(own, tbl, t, n)
    ensures ClosestOf(fast, AllEntries(tbl), DistanceTo(t), n)
  {
    VisitedSize(own, tbl, t, n);
    forall x, y | x in AllEntries(tbl) && x !in Visited(own, tbl, t, n) && y in fast
      ensures DistanceTo(t)(y) < DistanceTo(t)(x)
    {
      LeftOutOrder(own, tbl, t, n, x, y);
      if x in Skipped(own, tbl, t, n) {
        OnlyNearReturned(own, tbl, t, n, fast);
      }
    }
    ClosestOfLarger(fast, Visited(own, tbl, t, n), AllEntries(tbl), DistanceTo(t), n);
  }

  // Otherwise some skipped contact beats a returned one.
  lemma Misplaced(own: Key, tbl: Table, t: Key, n: nat, fast: seq<NodeInfo>) returns (x: NodeInfo, y: NodeInfo)
    requires own != t && TableOk(own, tbl)
    requires ClosestOf(fast, Visited(own, tbl, t, n), DistanceTo(t), n)
    requires n > 0 && !WalkSuffices(own, tbl, t, n)
    ensures x in AllEntries(tbl) && x !in fast && y in fast && Dist(x.id, t) < Dist(y.id, t)
  {
    VisitedSize(own, tbl, t, n);
    x :| x in Skipped(own, tbl, t, n);
    var c := Walk(own, tbl, t, n);
    InEntries(own, tbl, 0, c.down + 1, x);
    InEntries(own, tbl, c.down + 1, c.up, x);
    IncreasingNoDup(fast, DistanceTo(t));
    if Elems(fast) <= NearVisited(own, tbl, t, n) {
      SubsetSize(Elems(fast), NearVisited(own, tbl, t, n));
    }
    y :| y in Elems(fast) && y !in NearVisited(own, tbl, t, n);
    LeftOutOrder(own, tbl, t, n, x, y);
  }

  // In particular a target bucket with n contacts is enough.
  lemma FullBucketSuffices(own: Key, tbl: Table, t: Key, n: nat)
    requires own != t && TableOk(own, tbl) && |tbl[BucketOf(own, t)]| >= n
    ensures WalkSuffices(own, tbl, t, n)
  {
    var b := BucketOf(own, t);
    CollectOne(own, tbl, b);
    NoDupCardinality(tbl[b]);
    NearAtTarget(own, t, b);
    forall x | x in tbl[b]
      ensures x in NearVisited(own, tbl, t, n)
    {
      assert x in Elems(tbl[b]);
      InEntries(own, tbl, b, b + 1, x);
    }
    SubsetSize(Elems(tbl[b]), NearVisited(own, tbl, t, n));
  }

  // The walk never comes back empty-handed from a table that is not empty.
  lemma WalkEmpty(own: Key, tbl: Table, t: Key, n: nat)
    requires own != t && TableOk(own, tbl) && n >= 1
    ensures Visited(own, tbl, t, n) == {} <==> AllEntries(tbl) == {}
  {
  }
}
