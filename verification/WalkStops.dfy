// The walk described on the table alone: which buckets it visits, without
// following its cursors.
module WalkStops {
  import opened Keys
  import opened Contacts
  import opened Closest
  import opened Geometry
  import opened BucketWalk

  // How many contacts the buckets lo, ..., hi - 1 hold.
  ghost function Count(tbl: Table, lo: int, hi: int): nat
    requires 0 <= lo && hi <= |tbl|
  {
    |Entries(tbl, lo, hi)|
  }

  lemma CountOne(own: Key, tbl: Table, i: int)
    requires TableOk(own, tbl) && 0 <= i < |tbl|
    ensures Count(tbl, i, i + 1) == |tbl[i]|
  {
    CollectOne(own, tbl, i);
    NoDupCardinality(tbl[i]);
  }

  lemma CountSplit(own: Key, tbl: Table, lo: int, mid: int, hi: int)
    requires TableOk(own, tbl) && 0 <= lo <= mid <= hi <= |tbl|
    ensures Count(tbl, lo, hi) == Count(tbl, lo, mid) + Count(tbl, mid, hi)
  {
    var a, b := Entries(tbl, lo, mid), Entries(tbl, mid, hi);
    assert Entries(tbl, lo, hi) == a + b;
    forall x | x in a
      ensures x !in b
    {
      InEntries(own, tbl, lo, mid, x);
      InEntries(own, tbl, mid, hi, x);
    }
  }

  // How many the buckets from, from - 1, ..., j hold.
  ghost function Taken(tbl: Table, from: int, j: int): nat
    requires 0 <= j && from < |tbl|
  {
    Count(tbl, j, from + 1)
  }

  // Going down from a bucket, at least that one is taken, and then no more
  // buckets than it takes to match an amount.
  ghost predicate Matched(tbl: Table, from: int, to: int, amount: nat)
    requires 0 <= from < |tbl|
  {
    && -1 <= to < from
    && (to == -1 || Taken(tbl, from, to + 1) >= amount)
    && forall j | to + 1 < j <= from :: Taken(tbl, from, j) < amount
  }

  lemma MatchedUnique(tbl: Table, from: int, a: int, b: int, amount: nat)
    requires 0 <= from < |tbl| && Matched(tbl, from, a, amount) && Matched(tbl, from, b, amount)
    ensures a == b
  {
  }

  lemma {:induction false} DescendMatches(own: Key, tbl: Table, from: int, down: int, amount: nat)
    requires TableOk(own, tbl) && 0 <= from < |tbl| && -1 <= down < from
    requires forall j | down + 1 < j <= from :: Taken(tbl, from, j) < amount
    ensures Matched(tbl, from, Descend(tbl, down, Taken(tbl, from, down + 1), amount), amount)
    decreases down + 1
  {
    if Taken(tbl, from, down + 1) < amount && down >= 0 {
      TakenMore(own, tbl, from, down);
      DescendMatches(own, tbl, from, down - 1, amount);
    }
  }

  lemma TakenMore(own: Key, tbl: Table, from: int, down: int)
    requires TableOk(own, tbl) && 0 <= down < from < |tbl|
    ensures Taken(tbl, from, down) == Taken(tbl, from, down + 1) + |tbl[down]|
  {
    CountSplit(own, tbl, down, down + 1, from + 1);
    CountOne(own, tbl, down);
  }

  // ----- the stops of a walk -----

  // The first bucket not visited upwards after k turns from bucket b.
  function UpAfter(b: nat, k: nat): nat {
    Min(b + 1 + k, NUM_BUCKETS)
  }

  // The stops below bucket b, one for each turn: each turn takes one bucket up,
  // if there is one, and goes down to match it.
  ghost predicate Stops(tbl: Table, b: nat, stops: seq<int>) {
    && |tbl| == NUM_BUCKETS && b < NUM_BUCKETS && stops != [] && stops[0] == b - 1
    && (forall k | 0 <= k < |stops| :: -1 <= stops[k] < b)
    && (forall k | 0 <= k < |stops| - 1 :: NextStop(tbl, b, k, stops[k], stops[k + 1]))
  }

  ghost predicate NextStop(tbl: Table, b: nat, k: nat, from: int, to: int)
    requires |tbl| == NUM_BUCKETS && -1 <= from < NUM_BUCKETS
  {
    var amount := if b + 1 + k < NUM_BUCKETS then |tbl[b + 1 + k]| else 0;
    if from == -1 then to == -1 else Matched(tbl, from, to, amount)
  }

  // A walk for n contacts: it goes on while fewer are visited and some bucket
  // is left, and ends when that is over.
  ghost predicate WalkStopsAt(tbl: Table, b: nat, n: nat, stops: seq<int>) {
    && Stops(tbl, b, stops)
    && (forall k | 0 <= k < |stops| - 1 :: Unfinished(tbl, b, n, k, stops[k]))
    && !Unfinished(tbl, b, n, |stops| - 1, stops[|stops| - 1])
  }

  ghost predicate Unfinished(tbl: Table, b: nat, n: nat, k: nat, stop: int)
    requires |tbl| == NUM_BUCKETS && -1 <= stop < b < NUM_BUCKETS
  {
    Count(tbl, stop + 1, UpAfter(b, k)) < n && (stop >= 0 || UpAfter(b, k) < NUM_BUCKETS)
  }

  // ----- the walk is the one with these stops -----

  lemma TurnStops(own: Key, tbl: Table, b: nat, k: nat, stop: int)
    requires TableOk(own, tbl) && -1 <= stop < b < NUM_BUCKETS
    ensures var t := Turn(tbl, Cursors(UpAfter(b, k), stop));
            t.up == UpAfter(b, k + 1) && NextStop(tbl, b, k, stop, t.down)
  {
    if stop >= 0 {
      var amount := if b + 1 + k < NUM_BUCKETS then |tbl[b + 1 + k]| else 0;
      CountOne(own, tbl, stop);
      DescendMatches(own, tbl, stop, stop - 1, amount);
    }
  }

  lemma NextStopUnique(tbl: Table, b: nat, k: nat, from: int, x: int, y: int)
    requires |tbl| == NUM_BUCKETS && -1 <= from < NUM_BUCKETS
    requires NextStop(tbl, b, k, from, x) && NextStop(tbl, b, k, from, y)
    ensures x == y
  {
    if from >= 0 {
      MatchedUnique(tbl, from, x, y, if b + 1 + k < NUM_BUCKETS then |tbl[b + 1 + k]| else 0);
    }
  }

  // The bucket sizes fix the stops of a walk.
  lemma StopsUnique(tbl: Table, b: nat, n: nat, x: seq<int>, y: seq<int>)
    requires WalkStopsAt(tbl, b, n, x) && WalkStopsAt(tbl, b, n, y)
    ensures x == y
  {
    if |x| <= |y| {
      SameStops(tbl, b, n, x, y, |x| - 1);
    } else {
      SameStops(tbl, b, n, y, x, |y| - 1);
    }
  }

  lemma {:induction false} SameStops(tbl: Table, b: nat, n: nat, x: seq<int>, y: seq<int>, k: nat)
    requires WalkStopsAt(tbl, b, n, x) && WalkStopsAt(tbl, b, n, y) && k < |x| <= |y|
    ensures x[..k + 1] == y[..k + 1]
    ensures k == |x| - 1 ==> |x| == |y| && x == y
  {
    if k > 0 {
      SameStops(tbl, b, n, x, y, k - 1);
      assert x[k - 1] == x[..k][k - 1] == y[..k][k - 1] == y[k - 1];
      assert NextStop(tbl, b, k - 1, x[k - 1], x[k]) && NextStop(tbl, b, k - 1, y[k - 1], y[k]);
      NextStopUnique(tbl, b, k - 1, x[k - 1], x[k], y[k]);
    }
    if k == |x| - 1 && |x| < |y| {
      assert false;
    }
  }

  // From turn k on, the walk ends at the last stop.
  lemma {:induction false} WalkFollowsStops(own: Key, tbl: Table, b: nat, n: nat, stops: seq<int>, k: nat)
    requires TableOk(own, tbl) && WalkStopsAt(tbl, b, n, stops) && k < |stops|
    ensures WalkFrom(tbl, Cursors(UpAfter(b, k), stops[k]), n) ==
            Cursors(UpAfter(b, |stops| - 1), stops[|stops| - 1])
    decreases |stops| - k
  {
    var c := Cursors(UpAfter(b, k), stops[k]);
    TurnStops(own, tbl, b, k, stops[k]);
    if k < |stops| - 1 {
      NextStopUnique(tbl, b, k, stops[k], Turn(tbl, c).down, stops[k + 1]);
      assert Unfinished(tbl, b, n, k, stops[k]);
      WalkFollowsStops(own, tbl, b, n, stops, k + 1);
    }
  }

  // Every walk has stops.
  lemma {:induction false} StopsFrom(own: Key, tbl: Table, b: nat, n: nat, before: seq<int>) returns (stops: seq<int>)
    requires TableOk(own, tbl) && Stops(tbl, b, before)
    requires forall k | 0 <= k < |before| - 1 :: Unfinished(tbl, b, n, k, before[k])
    ensures WalkStopsAt(tbl, b, n, stops)
    decreases NUM_BUCKETS - UpAfter(b, |before| - 1) + before[|before| - 1] + 1
  {
    var k, last := |before| - 1, before[|before| - 1];
    stops := before;
    if Unfinished(tbl, b, n, k, last) {
      TurnStops(own, tbl, b, k, last);
      var next := Turn(tbl, Cursors(UpAfter(b, k), last)).down;
      stops := StopsFrom(own, tbl, b, n, before + [next]);
    }
  }

  lemma WalkHasStops(own: Key, tbl: Table, t: Key, n: nat) returns (stops: seq<int>)
    requires own != t && TableOk(own, tbl)
    ensures WalkStopsAt(tbl, BucketOf(own, t), n, stops)
  {
    var b := BucketOf(own, t);
    var bucket: int := b;
    var first := bucket - 1;
    stops := StopsFrom(own, tbl, b, n, [first]);
  }

  // The buckets visited: from above the last stop to the last one taken upwards.
  ghost function Reached(tbl: Table, b: nat, stops: seq<int>): set<NodeInfo>
    requires Stops(tbl, b, stops)
  {
    Entries(tbl, stops[|stops| - 1] + 1, UpAfter(b, |stops| - 1))
  }

  lemma VisitedIsReached(own: Key, tbl: Table, t: Key, n: nat, stops: seq<int>)
    requires own != t && TableOk(own, tbl) && WalkStopsAt(tbl, BucketOf(own, t), n, stops)
    ensures Visited(own, tbl, t, n) == Reached(tbl, BucketOf(own, t), stops)
    ensures Skipped(own, tbl, t, n) == Entries(tbl, 0, stops[|stops| - 1] + 1)
  {
    WalkFollowsStops(own, tbl, BucketOf(own, t), n, stops, 0);
  }

  // ----- how far it goes -----

  // The last stop and the end upwards.
  ghost function Lowest(stops: seq<int>): int
    requires stops != []
  {
    stops[|stops| - 1] + 1
  }

  ghost function Highest(b: nat, stops: seq<int>): int
    requires stops != []
  {
    UpAfter(b, |stops| - 1)
  }

  // Below the target's bucket at least as many buckets and contacts are visited
  // as above it, unless all of them are.
  lemma {:induction false} StopsBalance(own: Key, tbl: Table, b: nat, stops: seq<int>, k: nat)
    requires TableOk(own, tbl) && Stops(tbl, b, stops) && k < |stops|
    ensures Balanced(tbl, b, k, stops[k])
  {
    if k == 0 {
      assert Entries(tbl, b + 1, b + 1) == {};
    } else {
      StopsBalance(own, tbl, b, stops, k - 1);
      assert NextStop(tbl, b, k - 1, stops[k - 1], stops[k]);
      BalanceKept(own, tbl, b, k - 1, stops[k - 1], stops[k]);
    }
  }

  ghost predicate Balanced(tbl: Table, b: nat, k: nat, stop: int)
    requires |tbl| == NUM_BUCKETS && -1 <= stop < b < NUM_BUCKETS
  {
    stop == -1 || (b - 1 - stop >= k && Count(tbl, stop + 1, b) >= Count(tbl, b + 1, UpAfter(b, k)))
  }

  lemma BalanceKept(own: Key, tbl: Table, b: nat, k: nat, from: int, to: int)
    requires TableOk(own, tbl) && -1 <= from < b < NUM_BUCKETS && -1 <= to < b
    requires Balanced(tbl, b, k, from) && NextStop(tbl, b, k, from, to)
    ensures Balanced(tbl, b, k + 1, to)
  {
    if to != -1 {
      CountSplit(own, tbl, to + 1, from + 1, b);
      assert Taken(tbl, from, to + 1) == Count(tbl, to + 1, from + 1);
      UpMore(own, tbl, b, k);
    }
  }

  lemma UpMore(own: Key, tbl: Table, b: nat, k: nat)
    requires TableOk(own, tbl) && b < NUM_BUCKETS
    ensures Count(tbl, b + 1, UpAfter(b, k + 1)) ==
            Count(tbl, b + 1, UpAfter(b, k)) + if b + 1 + k < NUM_BUCKETS then |tbl[b + 1 + k]| else 0
  {
    if b + 1 + k < NUM_BUCKETS {
      CountSplit(own, tbl, b + 1, b + 1 + k, b + 2 + k);
      CountOne(own, tbl, b + 1 + k);
    }
  }

  lemma WalkBalanced(own: Key, tbl: Table, b: nat, n: nat, stops: seq<int>)
    requires TableOk(own, tbl) && WalkStopsAt(tbl, b, n, stops)
    ensures var lo, hi := Lowest(stops), Highest(b, stops);
            && 0 <= lo <= b < hi <= NUM_BUCKETS
            && (lo == 0 || (b - lo >= hi - (b + 1) && Count(tbl, lo, b) >= Count(tbl, b + 1, hi)))
  {
    StopsBalance(own, tbl, b, stops, |stops| - 1);
  }

  // And it goes no further than it must: without the last bucket taken upwards
  // fewer than n contacts would have been visited from the target's bucket up,
  // and without the last one taken downwards fewer than n + K below it.
  lemma WalkStopsSoon(own: Key, tbl: Table, b: nat, n: nat, stops: seq<int>)
    requires TableOk(own, tbl) && WalkStopsAt(tbl, b, n, stops)
    ensures var lo, hi := Lowest(stops), Highest(b, stops);
            && (hi == b + 1 || Count(tbl, b, hi - 1) < n)
            && (lo == b || Count(tbl, lo + 1, b) < n + K)
  {
    var m := |stops| - 1;
    if m > 0 {
      var from, up := stops[m - 1], UpAfter(b, m - 1);
      assert Unfinished(tbl, b, n, m - 1, from) && NextStop(tbl, b, m - 1, from, stops[m]);
      CountSplit(own, tbl, from + 1, b, up);
      CountSplit(own, tbl, b, Highest(b, stops) - 1, up);
      LastDown(own, tbl, b, m - 1, from, stops[m]);
    }
  }

  lemma LastDown(own: Key, tbl: Table, b: nat, k: nat, from: int, to: int)
    requires TableOk(own, tbl) && -1 <= from < b < NUM_BUCKETS && NextStop(tbl, b, k, from, to)
    ensures -1 <= to <= from && (to + 1 == b || Count(tbl, to + 2, b) <= K + Count(tbl, from + 1, b))
  {
    if to + 1 < from {
      CountSplit(own, tbl, to + 2, from + 1, b);
      assert Taken(tbl, from, to + 2) < K;
    } else if to + 2 <= b {
      CountSplit(own, tbl, from + 1, to + 2, b);
    }
  }

  // ----- exactness on the table alone -----

  // Visited contacts of near buckets.
  ghost function NearReached(own: Key, tbl: Table, t: Key, stops: seq<int>): set<NodeInfo>
    requires own != t && TableOk(own, tbl) && Stops(tbl, BucketOf(own, t), stops)
  {
    set x | x in Reached(tbl, BucketOf(own, t), stops) && x.id != own && Near(own, t, BucketOf(own, x.id))
  }
}
