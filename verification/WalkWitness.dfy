// A table on which the walk misses a closer contact.
module WalkWitness {
  import opened Keys
  import opened SmallKeys
  import opened Contacts
  import opened Closest
  import opened Buckets
  import opened Geometry
  import opened BucketWalk
  import opened RoutingTables

  lemma SmallBits(b: bv8, i: nat)
    requires i < KEY_BITS
    ensures KeyBits(Small(b))[i] <==> i >= 152 && BitOf(b, i - 152)
  {
  }

  lemma ZeroBits(i: nat)
    requires i < 8
    ensures !BitOf(0, i)
  {
  }

  lemma SmallBucket(b: bv8)
    requires b != 0
    ensures Small(b) != Small(0)
    ensures BucketOf(Small(0), Small(b)) == 7 - ByteLeadingZeros(b)
  {
    var z := ByteLeadingZeros(b);
    NonZeroByte(b);
    assert Small(b).value[K - 1] != Small(0).value[K - 1];
    forall i: nat | i <= 152 + z
      ensures KeyBits(Small(0))[i] == KeyBits(Small(b))[i] <==> i < 152 + z
    {
      SmallBits(0, i);
      SmallBits(b, i);
      if i >= 152 {
        ZeroBits(i - 152);
      }
    }
    FirstDiffUnique(KeyBits(Small(0)), KeyBits(Small(b)), 152 + z);
  }

  // A target bucket b and its upper neighbour are empty, the bucket below
  // holds just as many contacts as asked for, the target agrees with the own
  // id on that bucket's bit, and there is a contact further down.
  ghost predicate Trap(own: Key, tbl: Table, t: Key, n: nat, low: NodeInfo)
    requires own != t && TableOk(own, tbl)
  {
    var b := BucketOf(own, t);
    && 2 <= b < NUM_BUCKETS - 1 && tbl[b] == [] && tbl[b + 1] == []
    && |tbl[b - 1]| == n >= 1 && !Near(own, t, b - 1)
    && low in Entries(tbl, 0, b - 1)
  }

  lemma TrapStops(own: Key, tbl: Table, t: Key, n: nat, low: NodeInfo)
    requires own != t && TableOk(own, tbl) && Trap(own, tbl, t, n, low)
    ensures Walk(own, tbl, t, n) == Cursors(BucketOf(own, t) + 2, BucketOf(own, t) - 2)
  {
    var b := BucketOf(own, t);
    TrapCollected(own, tbl, b);
    StopsBelow(tbl, b, n);
  }

  lemma StopsBelow(tbl: Table, b: nat, n: nat)
    requires 2 <= b < |tbl| - 1 && tbl[b + 1] == [] && |tbl[b - 1]| == n >= 1
    requires Collected([], tbl, b, b + 1) && Collected(tbl[b - 1], tbl, b - 1, b + 2)
    ensures WalkFrom(tbl, Cursors(b + 1, b - 1), n) == Cursors(b + 2, b - 2)
  {
    WalkUnfold(tbl, Cursors(b + 1, b - 1), [], n);
    assert Turn(tbl, Cursors(b + 1, b - 1)) == Cursors(b + 2, b - 2);
    WalkUnfold(tbl, Cursors(b + 2, b - 2), tbl[b - 1], n);
  }

  lemma TrapCollected(own: Key, tbl: Table, b: nat)
    requires TableOk(own, tbl) && 1 <= b < NUM_BUCKETS - 1 && tbl[b] == [] && tbl[b + 1] == []
    ensures Collected([], tbl, b, b + 1) && Collected(tbl[b - 1], tbl, b - 1, b + 2)
  {
  }

  lemma TrapHasNoneNear(own: Key, tbl: Table, t: Key, n: nat, low: NodeInfo)
    requires own != t && TableOk(own, tbl) && Trap(own, tbl, t, n, low)
    ensures NearVisited(own, tbl, t, n) == {}
  {
    var b := BucketOf(own, t);
    TrapStops(own, tbl, t, n, low);
    TrapCollected(own, tbl, b);
    forall x
      ensures x !in NearVisited(own, tbl, t, n)
    {
      InEntries(own, tbl, b - 1, b, x);
      CollectOne(own, tbl, b - 1);
    }
  }

  // The walk stops below the target and misses every contact further down,
  // though it is closer than everything the walk returns.
  lemma TrapMissesCloser(own: Key, tbl: Table, t: Key, n: nat, low: NodeInfo, r: TableResult<seq<NodeInfo>>)
    requires own != t && TableOk(own, tbl) && Trap(own, tbl, t, n, low)
    requires WalkAnswer(r, own, tbl, t, n)
    ensures r.Ok? && low !in r.value && forall y | y in r.value :: Dist(low.id, t) < Dist(y.id, t)
    ensures r != ScanClosest(tbl, t, n)
  {
    TrapStops(own, tbl, t, n, low);
    TrapHasNoneNear(own, tbl, t, n, low);
    assert low in Skipped(own, tbl, t, n);
    WalkVersusScan(own, tbl, t, n, r);
    WalkDelivers(own, tbl, t, n, r);
    assert low in AllEntries(tbl);
    forall y | y in r.value
      ensures Dist(low.id, t) < Dist(y.id, t)
    {
      assert y in Elems(r.value);
      TrapOrder(own, tbl, t, n, low, y);
    }
  }

  lemma TrapOrder(own: Key, tbl: Table, t: Key, n: nat, low: NodeInfo, y: NodeInfo)
    requires own != t && TableOk(own, tbl) && Trap(own, tbl, t, n, low)
    requires y in Visited(own, tbl, t, n)
    ensures Dist(low.id, t) < Dist(y.id, t)
  {
    var b := BucketOf(own, t);
    TrapStops(own, tbl, t, n, low);
    InEntries(own, tbl, b - 1, b + 2, y);
    InEntries(own, tbl, 0, b - 1, low);
    HigherBucketDecides(own, t, low.id, y.id);
  }

  // ----- one such table -----

  function Stores(contacts: seq<NodeInfo>): (events: seq<Event>)
    ensures |events| == |contacts|
    ensures forall i | 0 <= i < |events| :: events[i] == Event(contacts[i], Replied)
  {
    seq(|contacts|, i requires 0 <= i < |contacts| => Event(contacts[i], Replied))
  }

  // A node with id 0 stores 4, 5, 6 and 1. Asked for the three contacts closest
  // to 8, the walk leaves out 1, the closest of all.
  lemma WalkMissesCloser()
    ensures var own, t, c := Small(0), Small(8), ContactsOf([4, 5, 6, 1]);
            Misses(own, t, c)
  {
    SmallBuckets([4, 5, 6, 1]);
    NotNear();
    TrapAfterStores(Small(0), Small(8), ContactsOf([4, 5, 6, 1]));
  }

  // After storing these four contacts, the walk to t never returns the last one,
  // which is closer than what it returns.
  ghost predicate Misses(own: Key, t: Key, c: seq<NodeInfo>) {
    var tbl := StoredAll(own, Stores(c));
    && |c| == 4 && TableOk(own, tbl)
    && forall r | WalkAnswer(r, own, tbl, t, 3) ::
         && r.Ok? && c[3] !in r.value && (forall y | y in r.value :: Dist(c[3].id, t) < Dist(y.id, t))
         && r != ScanClosest(tbl, t, 3)
  }

  // Three contacts go into bucket 2, the fourth into bucket 0.
  ghost predicate InTwoBuckets(own: Key, c: seq<NodeInfo>) {
    && |c| == 4 && c[0].id != c[1].id && c[0].id != c[2].id && c[1].id != c[2].id
    && forall i | 0 <= i < 4 :: c[i].id != own && BucketOf(own, c[i].id) == if i < 3 then 2 else 0
  }

  lemma TrapAfterStores(own: Key, t: Key, c: seq<NodeInfo>)
    requires own != t && BucketOf(own, t) == 3 && !Near(own, t, 2) && InTwoBuckets(own, c)
    ensures Misses(own, t, c)
  {
    var tbl := StoredAll(own, Stores(c));
    StoresKeepTable(own, EmptyTable(), Stores(c));
    FourStores(own, c);
    assert c[3] in tbl[0];
    forall r | WalkAnswer(r, own, tbl, t, 3)
      ensures r.Ok? && c[3] !in r.value && r != ScanClosest(tbl, t, 3)
      ensures forall y | y in r.value :: Dist(c[3].id, t) < Dist(y.id, t)
    {
      TrapMissesCloser(own, tbl, t, 3, c[3], r);
    }
  }

  // A contact with a new id is put at the end of a bucket with room.
  lemma StoreNew(own: Key, c: seq<NodeInfo>, n: nat)
    requires n < |c| && c[n].id != own
    requires var bucket := StoredAll(own, Stores(c[..n]))[BucketOf(own, c[n].id)];
             |bucket| < K && forall i | 0 <= i < |bucket| :: bucket[i].id != c[n].id
    ensures var tbl, b := StoredAll(own, Stores(c[..n])), BucketOf(own, c[n].id);
            StoredAll(own, Stores(c[..n + 1])) == tbl[b := tbl[b] + [c[n]]]
  {
    assert Stores(c[..n + 1])[..n] == Stores(c[..n]);
    var tbl, b := StoredAll(own, Stores(c[..n])), BucketOf(own, c[n].id);
    var k := WithoutAt(tbl[b], c[n].id);
  }

  lemma FourStores(own: Key, c: seq<NodeInfo>)
    requires InTwoBuckets(own, c)
    ensures var tbl := StoredAll(own, Stores(c));
            && tbl[2] == [c[0], c[1], c[2]] && tbl[0] == [c[3]]
            && forall i | 0 <= i < NUM_BUCKETS && i != 0 && i != 2 :: tbl[i] == []
  {
    assert StoredAll(own, Stores(c[..0])) == EmptyTable();
    StoreNew(own, c, 0);
    StoreNew(own, c, 1);
    StoreNew(own, c, 2);
    StoreNew(own, c, 3);
    assert c[..4] == c;
  }

  lemma NotNear()
    ensures !Near(Small(0), Small(8), 2)
  {
  }

  lemma SmallBuckets(bytes: seq<bv8>)
    requires bytes == [4, 5, 6, 1]
    ensures Small(8) != Small(0) && BucketOf(Small(0), Small(8)) == 3
    ensures InTwoBuckets(Small(0), ContactsOf(bytes))
  {
    SmallBucket(8);
    SmallDiffer(bytes[0], bytes[1]);
    SmallDiffer(bytes[0], bytes[2]);
    SmallDiffer(bytes[1], bytes[2]);
    forall i | 0 <= i < 4
      ensures Small(bytes[i]) != Small(0) && BucketOf(Small(0), Small(bytes[i])) == if i < 3 then 2 else 0
    {
      SmallBucket(bytes[i]);
    }
  }
}
