// The routing table: 160 k-buckets of one node.
module RoutingTables {
  import opened Keys
  import opened KeyPrefix
  import opened Contacts
  import opened Closest
  import opened Buckets
  import opened Common
  import opened Geometry
  import opened BucketWalk
  import opened WalkStops

  datatype RoutingError = Empty | BucketNotFoundForId(id: Key) | KBucketFailed | AttemptStoreSelf

  type TableResult<+T> = Result<T, RoutingError>

  // ----- storing -----

  // The table after store_nodeinfo.
  function Stored(own: Key, tbl: Table, x: NodeInfo, ping: Ping): Table
    requires |tbl| == NUM_BUCKETS
  {
    if x.id == own then tbl
    else tbl[BucketOf(own, x.id) := Added(tbl[BucketOf(own, x.id)], x, ping)]
  }

  lemma StoredOk(own: Key, tbl: Table, x: NodeInfo, ping: Ping)
    requires TableOk(own, tbl)
    ensures TableOk(own, Stored(own, tbl, x, ping))
  {
    if x.id != own {
      AddedProps(tbl[BucketOf(own, x.id)], x, ping);
    }
  }

  // Who is in the table afterwards: the newcomer, unless its bucket was full,
  // did not know it, and its head answered or could not be pinged; and all
  // others, except the head of such a bucket if it did not answer.
  lemma StoredExactly(own: Key, tbl: Table, x: NodeInfo, ping: Ping)
    requires TableOk(own, tbl) && x.id != own
    ensures var bucket := tbl[BucketOf(own, x.id)];
            var full := |bucket| == K && !HasId(bucket, x.id);
            && (x in AllEntries(Stored(own, tbl, x, ping)) <==> !full || ping.NoReply?)
            && forall y | y != x :: y in AllEntries(Stored(own, tbl, x, ping)) <==>
                 y in AllEntries(tbl) && y.id != x.id && !(full && y == bucket[0] && !ping.Replied?)
  {
    var b := BucketOf(own, x.id);
    AddedProps(tbl[b], x, ping);
    StoredOk(own, tbl, x, ping);
    forall y
      ensures y in AllEntries(Stored(own, tbl, x, ping)) <==>
                (y.id != own && if BucketOf(own, y.id) == b then y in Added(tbl[b], x, ping) else y in AllEntries(tbl))
    {
      OneBucketChanged(own, tbl, b, Added(tbl[b], x, ping), y);
    }
    forall y | y in tbl[b]
      ensures y in AllEntries(tbl) && y.id != own && BucketOf(own, y.id) == b
    {
    }
    forall y | y in AllEntries(tbl)
      ensures y.id != own && y in tbl[BucketOf(own, y.id)]
    {
      InEntries(own, tbl, 0, NUM_BUCKETS, y);
    }
  }

  lemma OneBucketChanged(own: Key, tbl: Table, b: nat, bucket: seq<NodeInfo>, y: NodeInfo)
    requires TableOk(own, tbl) && b < NUM_BUCKETS && TableOk(own, tbl[b := bucket])
    ensures y in AllEntries(tbl[b := bucket]) <==>
              (y.id != own && if BucketOf(own, y.id) == b then y in bucket else y in AllEntries(tbl))
  {
    InEntries(own, tbl, 0, NUM_BUCKETS, y);
    InEntries(own, tbl[b := bucket], 0, NUM_BUCKETS, y);
    if y in bucket {
      assert y in tbl[b := bucket][b];
    }
  }

  // The table after any sequence of stores with any ping outcomes.
  function StoredFrom(own: Key, tbl: Table, events: seq<Event>): (r: Table)
    requires |tbl| == NUM_BUCKETS
    ensures |r| == NUM_BUCKETS
    decreases |events|
  {
    if events == [] then tbl
    else
      var e := events[|events| - 1];
      Stored(own, StoredFrom(own, tbl, events[..|events| - 1]), e.contact, e.ping)
  }

  function EmptyTable(): (tbl: Table)
    ensures |tbl| == NUM_BUCKETS && forall i | 0 <= i < NUM_BUCKETS :: tbl[i] == []
  {
    seq(NUM_BUCKETS, _ => [])
  }

  // The table of a node after its first stores.
  function StoredAll(own: Key, events: seq<Event>): (tbl: Table)
    ensures |tbl| == NUM_BUCKETS
  {
    StoredFrom(own, EmptyTable(), events)
  }

  lemma {:induction false} StoresKeepTable(own: Key, tbl: Table, events: seq<Event>)
    requires TableOk(own, tbl)
    ensures TableOk(own, StoredFrom(own, tbl, events))
    decreases |events|
  {
    if events != [] {
      var before, e := events[..|events| - 1], events[|events| - 1];
      StoresKeepTable(own, tbl, before);
      StoredOk(own, StoredFrom(own, tbl, before), e.contact, e.ping);
    }
  }

  // Over every run: buckets hold at most K contacts, ids are unique across the
  // table, the own id never appears, and bucket i holds only distances in
  // [2^i, 2^(i+1)).
  lemma RunKeepsTable(own: Key, events: seq<Event>)
    ensures TableOk(own, StoredAll(own, events))
    ensures DistinctIds(AllEntries(StoredAll(own, events)))
    ensures forall i, x: NodeInfo | 0 <= i < NUM_BUCKETS && x in StoredAll(own, events)[i] ::
              Pow2(i) <= Dist(own, x.id) < Pow2(i + 1)
  {
    var tbl := StoredAll(own, events);
    StoresKeepTable(own, EmptyTable(), events);
    TableDistinct(own, tbl, own);
    forall i, x: NodeInfo | 0 <= i < NUM_BUCKETS && x in tbl[i]
      ensures Pow2(i) <= Dist(own, x.id) < Pow2(i + 1)
    {
      BucketHoldsRange(own, x.id);
    }
  }

  // ----- the walk and the full scan -----

  // What get_n_closest answers.
  ghost predicate WalkAnswer(r: TableResult<seq<NodeInfo>>, own: Key, tbl: Table, t: Key, n: nat)
    requires TableOk(own, tbl)
  {
    if own == t then r == Err(AttemptStoreSelf)
    else if Visited(own, tbl, t, n) == {} then r == Err(Empty)
    else r.Ok? && ClosestOf(r.value, Visited(own, tbl, t, n), DistanceTo(t), n)
  }

  // Sorting and cutting what the walk collected is the answer.
  lemma SortedVisited(own: Key, tbl: Table, t: Key, n: nat, collected: seq<NodeInfo>)
    requires own != t && TableOk(own, tbl)
    requires var c := Walk(own, tbl, t, n);
             Collected(collected, tbl, c.down + 1, c.up)
    ensures collected == [] ==> WalkAnswer(Err(Empty), own, tbl, t, n)
    ensures var sorted := StableSort(collected, DistanceTo(t));
            collected != [] ==> WalkAnswer(Ok(sorted[..Min(n, |sorted|)]), own, tbl, t, n)
  {
    var c := Walk(own, tbl, t, n);
    SortedCut(own, tbl, t, n, collected, c.down + 1, c.up, Visited(own, tbl, t, n));
  }

  lemma SortedCut(own: Key, tbl: Table, t: Key, n: nat, s: seq<NodeInfo>, lo: int, hi: int, v: set<NodeInfo>)
    requires TableOk(own, tbl) && 0 <= lo && hi <= |tbl| && Collected(s, tbl, lo, hi) && v == Entries(tbl, lo, hi)
    ensures s == [] <==> v == {}
    ensures var sorted := StableSort(s, DistanceTo(t));
            ClosestOf(sorted[..Min(n, |sorted|)], v, DistanceTo(t), n)
  {
    EmptyElems(s);
    SortedRange(own, tbl, s, lo, hi, t, n);
  }

  // The same, from the buckets that the stops of the walk reach.
  ghost predicate StopsAnswer(r: TableResult<seq<NodeInfo>>, tbl: Table, b: nat, t: Key, n: nat, stops: seq<int>)
    requires Stops(tbl, b, stops)
  {
    if Reached(tbl, b, stops) == {} then r == Err(Empty)
    else r.Ok? && ClosestOf(r.value, Reached(tbl, b, stops), DistanceTo(t), n)
  }

  // The answer is fixed by the stops, which are fixed by the bucket sizes.
  lemma AnswerByStops(own: Key, tbl: Table, t: Key, n: nat, r: TableResult<seq<NodeInfo>>)
    requires own != t && TableOk(own, tbl) && WalkAnswer(r, own, tbl, t, n)
    ensures exists stops :: WalkStopsAt(tbl, BucketOf(own, t), n, stops)
    ensures forall stops | WalkStopsAt(tbl, BucketOf(own, t), n, stops) ::
              StopsAnswer(r, tbl, BucketOf(own, t), t, n, stops)
  {
    var some := WalkHasStops(own, tbl, t, n);
    forall stops | WalkStopsAt(tbl, BucketOf(own, t), n, stops)
      ensures StopsAnswer(r, tbl, BucketOf(own, t), t, n, stops)
    {
      VisitedIsReached(own, tbl, t, n, stops);
    }
  }

  // Walk against scan on the table alone: the same answer if and only if the
  // buckets below the last stop are empty, or n near contacts were reached.
  lemma StopsVersusScan(own: Key, tbl: Table, t: Key, n: nat, stops: seq<int>, r: TableResult<seq<NodeInfo>>)
    requires TableOk(own, tbl) && own != t && n >= 1
    requires WalkStopsAt(tbl, BucketOf(own, t), n, stops) && StopsAnswer(r, tbl, BucketOf(own, t), t, n, stops)
    ensures r == ScanClosest(tbl, t, n) <==>
              Entries(tbl, 0, Lowest(stops)) == {} || |NearReached(own, tbl, t, stops)| >= n
  {
    VisitedIsReached(own, tbl, t, n, stops);
    assert NearReached(own, tbl, t, stops) == NearVisited(own, tbl, t, n);
    WalkVersusScan(own, tbl, t, n, r);
  }

  // What the full scan answers.
  ghost predicate ScanAnswer(r: TableResult<seq<NodeInfo>>, tbl: Table, t: Key, n: nat) {
    if AllEntries(tbl) == {} then r == Err(Empty)
    else r.Ok? && ClosestOf(r.value, AllEntries(tbl), DistanceTo(t), n)
  }

  function Flatten(tbl: Table): seq<NodeInfo> {
    if tbl == [] then [] else Flatten(tbl[..|tbl| - 1]) + tbl[|tbl| - 1]
  }

  lemma {:induction false} FlattenCollects(own: Key, tbl: Table, n: nat)
    requires TableOk(own, tbl) && n <= |tbl|
    ensures Collected(Flatten(tbl[..n]), tbl, 0, n)
  {
    if n > 0 {
      FlattenCollects(own, tbl, n - 1);
      assert tbl[..n][..n - 1] == tbl[..n - 1];
      CollectMore(own, tbl, Flatten(tbl[..n - 1]), 0, n - 1, n - 1);
    } else {
      CollectNone(tbl, 0);
    }
  }

  // get_n_closest_slow: flatten, sort, cut.
  function ScanClosest(tbl: Table, t: Key, n: nat): TableResult<seq<NodeInfo>> {
    var all := Flatten(tbl);
    if all == [] then Err(Empty)
    else
      var sorted := StableSort(all, DistanceTo(t));
      Ok(sorted[..Min(n, |sorted|)])
  }

  lemma ScanIsClosest(own: Key, tbl: Table, t: Key, n: nat)
    requires TableOk(own, tbl)
    ensures ScanAnswer(ScanClosest(tbl, t, n), tbl, t, n)
  {
    FlattenCollects(own, tbl, |tbl|);
    assert tbl[..|tbl|] == tbl;
    SortedRange(own, tbl, Flatten(tbl), 0, |tbl|, t, n);
  }

  // Walk against scan, for every table, target and n >= 1: the same answer if
  // and only if WalkSuffices.
  lemma WalkVersusScan(own: Key, tbl: Table, t: Key, n: nat, r: TableResult<seq<NodeInfo>>)
    requires TableOk(own, tbl) && own != t && n >= 1 && WalkAnswer(r, own, tbl, t, n)
    ensures r == ScanClosest(tbl, t, n) <==> WalkSuffices(own, tbl, t, n)
  {
    ScanIsClosest(own, tbl, t, n);
    WalkEmpty(own, tbl, t, n);
    if AllEntries(tbl) == {} {
      VisitedSize(own, tbl, t, n);
      assert Skipped(own, tbl, t, n) <= AllEntries(tbl);
    } else {
      WalkExactness(own, tbl, t, n, r.value, ScanClosest(tbl, t, n).value);
    }
  }

  // Asked for nothing, the walk looks at the target's bucket only.
  lemma WalkOfZero(own: Key, tbl: Table, t: Key, r: TableResult<seq<NodeInfo>>)
    requires TableOk(own, tbl) && own != t && WalkAnswer(r, own, tbl, t, 0)
    ensures r == ScanClosest(tbl, t, 0) <==> tbl[BucketOf(own, t)] != [] || AllEntries(tbl) == {}
  {
    ScanIsClosest(own, tbl, t, 0);
    VisitedForZero(own, tbl, t);
    VisitedSize(own, tbl, t, 0);
  }

  lemma VisitedForZero(own: Key, tbl: Table, t: Key)
    requires own != t && TableOk(own, tbl)
    ensures Visited(own, tbl, t, 0) == {} <==> tbl[BucketOf(own, t)] == []
  {
    var b := BucketOf(own, t);
    CollectOne(own, tbl, b);
    EmptyElems(tbl[b]);
    var c := Walk(own, tbl, t, 0);
    assert c.down + 1 == b && c.up == b + 1;
  }

  // A walk that is asked for at least one contact delivers as many as there
  // are, up to n, and is empty only on an empty table.
  lemma WalkDelivers(own: Key, tbl: Table, t: Key, n: nat, r: TableResult<seq<NodeInfo>>)
    requires TableOk(own, tbl) && own != t && n >= 1 && WalkAnswer(r, own, tbl, t, n)
    ensures r.Err? <==> AllEntries(tbl) == {}
    ensures r.Err? ==> r.error == Empty
    ensures r.Ok? ==> |r.value| == Min(n, |AllEntries(tbl)|) && NoDup(r.value) && Increasing(r.value, DistanceTo(t))
    ensures r.Ok? ==> Elems(r.value) <= AllEntries(tbl)
  {
    VisitedSize(own, tbl, t, n);
    if r.Ok? {
      IncreasingNoDup(r.value, DistanceTo(t));
    }
  }

  class RoutingTable {
    const id: Key
    // The contacts of each k-bucket; the buckets are owned values.
    var buckets: Table

    // At most K contacts a bucket, every contact in the bucket of its distance,
    // ids unique, the own id nowhere.
    ghost predicate Valid()
      reads this
    {
      TableOk(id, buckets)
    }

    constructor (id: Key)
      ensures Valid() && this.id == id && buckets == EmptyTable() && AllEntries(buckets) == {}
    {
      this.id := id;
      buckets := EmptyTable();
    }

    // RoutingTable::get_bucket_index
    method GetBucketIndex(key: Key) returns (r: TableResult<nat>)
      ensures key == id ==> r == Err(AttemptStoreSelf)
      ensures key != id ==> r == Ok(BucketOf(id, key))
    {
      var lz := LeadingZerosInDistance(id, key);
      if key != id {
        CloserByFirstDiff(id, key, id);
      } else {
        FirstDiffEqual(KeyBits(id), KeyBits(key));
      }
      if lz == NUM_BUCKETS {
        r := Err(AttemptStoreSelf);
      } else if lz > NUM_BUCKETS {
        r := Err(BucketNotFoundForId(key));
      } else {
        r := Ok(NUM_BUCKETS - 1 - lz);
      }
    }

    // RoutingTable::store_nodeinfo; `ping` is how a ping of the head would end.
    method StoreNodeinfo(x: NodeInfo, ping: Ping) returns (r: TableResult<()>)
      requires Valid()
      modifies this
      ensures Valid()
      ensures buckets == Stored(id, old(buckets), x, ping)
      ensures x.id == id ==> r == Err(AttemptStoreSelf)
      ensures x.id != id ==>
                r == if AddFails(old(buckets)[BucketOf(id, x.id)], x, ping) then Err(KBucketFailed) else Ok(())
    {
      StoredOk(id, buckets, x, ping);
      var index := GetBucketIndex(x.id);
      if index.Err? {
        return Err(index.error);
      }
      var i := index.value;
      var bucket := new KBucket(buckets[i]);
      var ok := bucket.AddNodeinfo(x, ping);
      buckets := buckets[i := bucket.nodes];
      r := if ok then Ok(()) else Err(KBucketFailed);
    }

    // RoutingTable::get_nodeinfo agrees with a scan of the whole table.
    method GetNodeinfo(key: Key) returns (r: TableResult<Option<NodeInfo>>)
      requires Valid()
      ensures key == id <==> r.Err?
      ensures r.Ok? && r.value.Some? ==> r.value.value in AllEntries(buckets) && r.value.value.id == key
      ensures r.Ok? && r.value.None? ==> forall x | x in AllEntries(buckets) :: x.id != key
    {
      var index := GetBucketIndex(key);
      if index.Err? {
        return Err(index.error);
      }
      var bucket := new KBucket(buckets[index.value]);
      var found := bucket.GetNodeinfo(key);
      r := Ok(found);
    }

    // RoutingTable::get_n_closest
    method GetNClosest(key: Key, n: nat) returns (r: TableResult<seq<NodeInfo>>)
      requires Valid()
      ensures WalkAnswer(r, id, buckets, key, n)
      ensures key != id ==> forall stops | WalkStopsAt(buckets, BucketOf(id, key), n, stops) ::
                StopsAnswer(r, buckets, BucketOf(id, key), key, n, stops)
    {
      var index := GetBucketIndex(key);
      if index.Err? {
        return Err(index.error);
      }
      var result := CollectAround(id, buckets, index.value, n);
      SortedVisited(id, buckets, key, n, result);
      if |result| == 0 {
        AnswerByStops(id, buckets, key, n, Err(Empty));
        return Err(Empty);
      }
      var sorted := StableSort(result, DistanceTo(key));
      r := Ok(sorted[..Min(n, |sorted|)]);
      AnswerByStops(id, buckets, key, n, r);
    }

    // RoutingTable::get_random_id_for_bucket; the random key is an input.
    method GetRandomIdForBucket(i: nat, random: KeyValue) returns (key: Key)
      requires i < NUM_BUCKETS
      ensures key != id && BucketOf(id, key) == i
      ensures SharesExactly(key.value, id.value, random, NUM_BUCKETS - 1 - i)
    {
      var bytes := new bv8[K](j requires 0 <= j < K => random[j]);
      assert bytes[..] == random;
      MakeExactlyNSameLeadingBitsAs(bytes, id.value, NUM_BUCKETS - i - 1);
      key := Key(bytes[..]);
      LeavesAtBit(id, key, random, NUM_BUCKETS - 1 - i);
      FirstDiffEqual(KeyBits(id), KeyBits(key));
    }
  }
}
