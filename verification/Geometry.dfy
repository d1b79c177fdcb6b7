// Where the buckets lie with respect to a lookup target.
module Geometry {
  import opened Keys

  const NUM_BUCKETS: nat := 160

  // The bucket of the own node that covers a key.
  function BucketOf(own: Key, key: Key): (b: nat)
    requires own != key
    ensures b < NUM_BUCKETS && b == NUM_BUCKETS - 1 - FirstDiff(KeyBits(own), KeyBits(key))
  {
    CloserByFirstDiff(own, key, own);
    NUM_BUCKETS - 1 - FirstDiff(KeyBits(own), KeyBits(key))
  }

  // Target and own id differ in the bit that bucket j decides.
  predicate Near(own: Key, t: Key, j: nat)
    requires j < NUM_BUCKETS
  {
    KeyBits(t)[NUM_BUCKETS - 1 - j] != KeyBits(own)[NUM_BUCKETS - 1 - j]
  }

  lemma BucketHoldsRange(own: Key, x: Key)
    requires own != x
    ensures Pow2(BucketOf(own, x)) <= Dist(own, x) < Pow2(BucketOf(own, x) + 1)
  {
    DistanceLevel(own, x);
  }

  // The target's bucket is near; no bucket above it is.
  lemma NearAtTarget(own: Key, t: Key, j: nat)
    requires own != t && BucketOf(own, t) <= j < NUM_BUCKETS
    ensures Near(own, t, j) <==> j == BucketOf(own, t)
  {
  }

  // Between two buckets, the higher one decides: its contacts are the closer
  // ones exactly when it is near.
  lemma HigherBucketDecides(own: Key, t: Key, low: Key, high: Key)
    requires own != low && own != high && BucketOf(own, low) < BucketOf(own, high)
    ensures Dist(high, t) < Dist(low, t) <==> Near(own, t, BucketOf(own, high))
    ensures Dist(low, t) < Dist(high, t) <==> !Near(own, t, BucketOf(own, high))
  {
    PrefixDecides(own, t, low, high);
  }

  // Contacts of near buckets come before contacts of the others.
  lemma NearBeforeFar(own: Key, t: Key, x: Key, y: Key)
    requires own != x && own != y
    requires Near(own, t, BucketOf(own, x)) && !Near(own, t, BucketOf(own, y))
    ensures Dist(x, t) < Dist(y, t)
  {
    if BucketOf(own, x) < BucketOf(own, y) {
      HigherBucketDecides(own, t, x, y);
    } else {
      HigherBucketDecides(own, t, y, x);
    }
  }

  // Around the target's bucket b: bucket b before every lower bucket, those
  // before every higher one, and higher ones in order.
  lemma BucketLayers(own: Key, t: Key, x: Key, y: Key)
    requires own != t && own != x && own != y
    ensures BucketOf(own, x) == BucketOf(own, t) && BucketOf(own, y) < BucketOf(own, t) ==> Dist(x, t) < Dist(y, t)
    ensures BucketOf(own, x) <= BucketOf(own, t) < BucketOf(own, y) ==> Dist(x, t) < Dist(y, t)
    ensures BucketOf(own, t) <= BucketOf(own, x) < BucketOf(own, y) ==> Dist(x, t) < Dist(y, t)
  {
    if BucketOf(own, y) < BucketOf(own, x) {
      NearAtTarget(own, t, BucketOf(own, t));
      HigherBucketDecides(own, t, y, x);
    } else if BucketOf(own, x) < BucketOf(own, y) && BucketOf(own, t) <= BucketOf(own, y) {
      NearAtTarget(own, t, BucketOf(own, y));
      HigherBucketDecides(own, t, x, y);
    }
  }
}
