// The 160-bit key space: XOR distance, the order it induces, and leading zeros.
//
// A key is a fixed-length byte string, as in the source. Every fact about it is
// proved through its bits, read from the most significant one (index 0).
module Keys {

  // Key length in bytes; the same constant is the bucket capacity.
  const K: nat := 20
  const KEY_BITS: nat := 160

  type KeyValue = v: seq<bv8> | |v| == K witness seq(K, _ => 0)
  datatype Key = Key(value: KeyValue)

  // ----- single bytes, read as eight bits from the left -----

  predicate SingleBit(m: bv8) {
    m == 0x80 || m == 0x40 || m == 0x20 || m == 0x10 || m == 0x08 || m == 0x04 || m == 0x02 || m == 0x01
  }

  function Mask(i: nat): (m: bv8)
    requires i < 8
    ensures SingleBit(m)
  {
    if i == 0 then 0x80 else if i == 1 then 0x40 else if i == 2 then 0x20 else if i == 3 then 0x10
    else if i == 4 then 0x08 else if i == 5 then 0x04 else if i == 6 then 0x02 else 0x01
  }

  predicate Test(b: bv8, m: bv8) {
    b & m != 0
  }

  predicate BitOf(b: bv8, i: nat)
    requires i < 8
  {
    Test(b, Mask(i))
  }

  function IndexOf(m: bv8): (i: nat)
    requires SingleBit(m)
    ensures i < 8 && Mask(i) == m
  {
    if m == 0x80 then 0 else if m == 0x40 then 1 else if m == 0x20 then 2 else if m == 0x10 then 3
    else if m == 0x08 then 4 else if m == 0x04 then 5 else if m == 0x02 then 6 else 7
  }

  lemma MaskOrder(i: nat, j: nat)
    requires i < 8 && j < 8
    ensures Mask(i) > Mask(j) <==> i < j
  {
  }

  lemma MasksDecideOrder(a: bv8, b: bv8, m: bv8)
    requires SingleBit(m)
    requires Test(a, m) != Test(b, m)
    requires forall h: bv8 | SingleBit(h) && h > m :: Test(a, h) == Test(b, h)
    ensures a < b <==> Test(b, m)
  {
    assert m < 0x80 ==> Test(a, 0x80) == Test(b, 0x80);
    assert m < 0x40 ==> Test(a, 0x40) == Test(b, 0x40);
    assert m < 0x20 ==> Test(a, 0x20) == Test(b, 0x20);
    assert m < 0x10 ==> Test(a, 0x10) == Test(b, 0x10);
    assert m < 0x08 ==> Test(a, 0x08) == Test(b, 0x08);
    assert m < 0x04 ==> Test(a, 0x04) == Test(b, 0x04);
    assert m < 0x02 ==> Test(a, 0x02) == Test(b, 0x02);
  }

  // Two bytes compare as their first differing bits do.
  lemma ByteOrder(a: bv8, b: bv8, q: nat)
    requires q < 8 && BitOf(a, q) != BitOf(b, q)
    requires forall i: nat | i < q :: BitOf(a, i) == BitOf(b, i)
    ensures a < b <==> BitOf(b, q)
  {
    forall h: bv8 | SingleBit(h) && h > Mask(q) ensures Test(a, h) == Test(b, h) {
      var i := IndexOf(h);
      MaskOrder(i, q);
      assert BitOf(a, i) == BitOf(b, i);
    }
    MasksDecideOrder(a, b, Mask(q));
  }

  lemma SameMasks(a: bv8, b: bv8)
    requires forall m: bv8 | SingleBit(m) :: Test(a, m) == Test(b, m)
    ensures a == b
  {
    assert Test(a, 0x80) == Test(b, 0x80);
    assert Test(a, 0x40) == Test(b, 0x40);
    assert Test(a, 0x20) == Test(b, 0x20);
    assert Test(a, 0x10) == Test(b, 0x10);
    assert Test(a, 0x08) == Test(b, 0x08);
    assert Test(a, 0x04) == Test(b, 0x04);
    assert Test(a, 0x02) == Test(b, 0x02);
    assert Test(a, 0x01) == Test(b, 0x01);
  }

  lemma SameBitsSameByte(a: bv8, b: bv8)
    requires forall i: nat | i < 8 :: BitOf(a, i) == BitOf(b, i)
    ensures a == b
  {
    forall m: bv8 | SingleBit(m) ensures Test(a, m) == Test(b, m) {
      var i := IndexOf(m);
      assert BitOf(a, i) == BitOf(b, i);
    }
    SameMasks(a, b);
  }

  lemma MaskIsShift(i: nat)
    requires i < 8
    ensures (1 as bv8) << (7 - i) == Mask(i)
  {
  }

  // u8::leading_zeros
  function ByteLeadingZeros(b: bv8): (r: nat)
    ensures r <= 8
    ensures forall i: nat | i < r :: !BitOf(b, i)
    ensures r < 8 ==> BitOf(b, r)
  {
    if b & 0x80 != 0 then 0 else if b & 0x40 != 0 then 1 else if b & 0x20 != 0 then 2
    else if b & 0x10 != 0 then 3 else if b & 0x08 != 0 then 4 else if b & 0x04 != 0 then 5
    else if b & 0x02 != 0 then 6 else if b & 0x01 != 0 then 7 else 8
  }

  // ----- byte strings as bit strings and as big-endian integers -----

  predicate BitAt(s: seq<bv8>, i: nat)
    requires i < 8 * |s|
  {
    BitOf(s[i / 8], i % 8)
  }

  function Bits(s: seq<bv8>): (r: seq<bool>)
    ensures |r| == 8 * |s|
    ensures forall i: nat | i < |r| :: r[i] == BitAt(s, i)
  {
    seq(8 * |s|, i requires 0 <= i < 8 * |s| => BitAt(s, i))
  }

  function Pow2(n: nat): (r: nat)
    ensures r >= 1
  {
    if n == 0 then 1 else 2 * Pow2(n - 1)
  }

  // The integer a bit string denotes, most significant bit first.
  function Value(bits: seq<bool>): (r: nat)
    ensures r < Pow2(|bits|)
  {
    if bits == [] then 0
    else (if bits[0] then Pow2(|bits| - 1) else 0) + Value(bits[1..])
  }

  function XorBits(a: seq<bool>, b: seq<bool>): (r: seq<bool>)
    requires |a| == |b|
    ensures |r| == |a|
  {
    seq(|a|, i requires 0 <= i < |a| => a[i] != b[i])
  }

  // First index at which two bit strings differ, or their length.
  function FirstDiff(a: seq<bool>, b: seq<bool>): (r: nat)
    requires |a| == |b|
    ensures r <= |a|
    ensures forall i: nat | i < r :: a[i] == b[i]
    ensures r < |a| ==> a[r] != b[r]
  {
    if a == [] || a[0] != b[0] then 0
    else
      var q := FirstDiff(a[1..], b[1..]);
      assert forall i: nat | 0 < i < q + 1 :: a[i] == a[1..][i - 1] == b[1..][i - 1] == b[i];
      q + 1
  }

  lemma FirstDiffUnique(a: seq<bool>, b: seq<bool>, r: nat)
    requires |a| == |b| && r <= |a|
    requires forall i: nat | i < r :: a[i] == b[i]
    requires r < |a| ==> a[r] != b[r]
    ensures FirstDiff(a, b) == r
  {
  }

  lemma FirstDiffEqual(a: seq<bool>, b: seq<bool>)
    requires |a| == |b|
    ensures FirstDiff(a, b) == |a| <==> a == b
  {
  }

  // Integers compare as their first differing bits do.
  lemma {:induction false} ValueOrder(a: seq<bool>, b: seq<bool>)
    requires |a| == |b|
    ensures a == b ==> Value(a) == Value(b)
    ensures a != b ==> FirstDiff(a, b) < |a|
    ensures a != b ==> (Value(a) < Value(b) <==> b[FirstDiff(a, b)])
    ensures a != b ==> (Value(b) < Value(a) <==> a[FirstDiff(a, b)])
  {
    if a != [] && a[0] == b[0] {
      var x, y := a[1..], b[1..];
      ValueOrder(x, y);
      assert a == [a[0]] + x && b == [b[0]] + y;
      assert FirstDiff(a, b) == FirstDiff(x, y) + 1;
    }
  }

  // Where the first set bit is bounds the integer from both sides.
  lemma {:induction false} ValueLevel(a: seq<bool>, p: nat)
    requires p < |a| && a[p]
    requires forall i: nat | i < p :: !a[i]
    ensures Pow2(|a| - 1 - p) <= Value(a) < Pow2(|a| - p)
  {
    if p > 0 {
      assert forall i: nat | i < p - 1 :: a[1..][i] == a[i + 1];
      ValueLevel(a[1..], p - 1);
    }
  }

  lemma {:induction false} ValueTriangle(a: seq<bool>, b: seq<bool>)
    requires |a| == |b|
    ensures Value(XorBits(a, b)) <= Value(a) + Value(b)
  {
    if a != [] {
      assert XorBits(a, b)[1..] == XorBits(a[1..], b[1..]);
      ValueTriangle(a[1..], b[1..]);
    }
  }

  // ----- XOR distance -----

  function KeyBits(k: Key): (r: seq<bool>)
    ensures |r| == KEY_BITS
  {
    Bits(k.value)
  }

  function XorBytes(a: seq<bv8>, b: seq<bv8>): (r: seq<bv8>)
    requires |a| == |b|
    ensures |r| == |a|
  {
    seq(|a|, i requires 0 <= i < |a| => a[i] ^ b[i])
  }

  // The distance read as a big-endian integer.
  function Dist(a: Key, b: Key): (r: nat)
  {
    Value(Bits(XorBytes(a.value, b.value)))
  }

  // Key::distance
  method Distance(self: Key, other: Key) returns (distance: KeyValue)
    ensures distance == XorBytes(self.value, other.value)
    ensures Value(Bits(distance)) == Dist(self, other)
  {
    var bytes := new bv8[K](_ => 0);
    for i := 0 to K
      invariant forall j | 0 <= j < i :: bytes[j] == self.value[j] ^ other.value[j]
    {
      bytes[i] := self.value[i] ^ other.value[i];
    }
    distance := bytes[..];
    assert distance == XorBytes(self.value, other.value);
  }

  lemma BitsOfXor(a: seq<bv8>, b: seq<bv8>)
    requires |a| == |b|
    ensures Bits(XorBytes(a, b)) == XorBits(Bits(a), Bits(b))
  {
  }

  lemma SameBytes(a: seq<bv8>, b: seq<bv8>, j: nat)
    requires j < |a| && j < |b|
    requires forall i: nat | 8 * j <= i < 8 * j + 8 :: BitAt(a, i) == BitAt(b, i)
    ensures a[j] == b[j]
  {
    forall i: nat | i < 8
      ensures BitOf(a[j], i) == BitOf(b[j], i)
    {
      assert BitAt(a, 8 * j + i) == BitAt(b, 8 * j + i);
    }
    SameBitsSameByte(a[j], b[j]);
  }

  lemma BitsInjective(a: seq<bv8>, b: seq<bv8>)
    requires |a| == |b| && Bits(a) == Bits(b)
    ensures a == b
  {
    forall j: nat | j < |a|
      ensures a[j] == b[j]
    {
      forall i: nat | 8 * j <= i < 8 * j + 8
        ensures BitAt(a, i) == BitAt(b, i)
      {
        assert Bits(a)[i] == Bits(b)[i];
      }
      SameBytes(a, b, j);
    }
  }

  // Of two keys, the one that shares the target's bit at their first
  // difference is the closer one.
  lemma CloserByFirstDiff(e: Key, f: Key, t: Key)
    requires e != f
    ensures FirstDiff(KeyBits(e), KeyBits(f)) < KEY_BITS
    ensures Dist(e, t) < Dist(f, t) <==>
              KeyBits(e)[FirstDiff(KeyBits(e), KeyBits(f))] == KeyBits(t)[FirstDiff(KeyBits(e), KeyBits(f))]
    ensures Dist(e, t) != Dist(f, t)
  {
    var x, y, z := KeyBits(e), KeyBits(f), KeyBits(t);
    if x == y {
      BitsInjective(e.value, f.value);
    }
    FirstDiffEqual(x, y);
    var q := FirstDiff(x, y);
    BitsOfXor(e.value, t.value);
    BitsOfXor(f.value, t.value);
    var xt, yt := XorBits(x, z), XorBits(y, z);
    assert xt[q] != yt[q];
    FirstDiffUnique(xt, yt, q);
    ValueOrder(xt, yt);
  }

  // The distance is a metric, and injective in each argument.
  lemma DistanceIsMetric(a: Key, b: Key, c: Key)
    ensures Dist(a, b) == 0 <==> a == b
    ensures Dist(a, b) == Dist(b, a)
    ensures Dist(a, c) <= Dist(a, b) + Dist(b, c)
    ensures Dist(a, c) == Dist(b, c) ==> a == b
    ensures Dist(c, a) == Dist(c, b) ==> a == b
  {
    DistSymmetric(a, b);
    DistSymmetric(a, c);
    DistSymmetric(b, c);
    if a != b {
      CloserByFirstDiff(a, b, c);
      CloserByFirstDiff(a, b, b);
    }
    DistSelf(a);
    DistSelf(b);
    BitsOfXor(a.value, b.value);
    BitsOfXor(b.value, c.value);
    BitsOfXor(a.value, c.value);
    var x, y, z := KeyBits(a), KeyBits(b), KeyBits(c);
    assert XorBits(x, z) == XorBits(XorBits(x, y), XorBits(y, z));
    ValueTriangle(XorBits(x, y), XorBits(y, z));
  }

  lemma DistSymmetric(a: Key, b: Key)
    ensures Dist(a, b) == Dist(b, a)
  {
    BitsOfXor(a.value, b.value);
    BitsOfXor(b.value, a.value);
    assert XorBits(KeyBits(a), KeyBits(b)) == XorBits(KeyBits(b), KeyBits(a));
  }

  lemma {:induction false} ZeroValue(a: seq<bool>)
    requires forall i | 0 <= i < |a| :: !a[i]
    ensures Value(a) == 0
  {
    if a != [] {
      ZeroValue(a[1..]);
    }
  }

  lemma DistSelf(a: Key)
    ensures Dist(a, a) == 0
  {
    BitsOfXor(a.value, a.value);
    ZeroValue(XorBits(KeyBits(a), KeyBits(a)));
  }

  // ----- byte-wise comparison, as arrays of u8 compare -----

  predicate BytesLess(a: seq<bv8>, b: seq<bv8>)
    requires |a| == |b|
  {
    a != [] && (a[0] < b[0] || (a[0] == b[0] && BytesLess(a[1..], b[1..])))
  }

  lemma {:induction false} BytesLessAt(a: seq<bv8>, b: seq<bv8>, p: nat)
    requires |a| == |b| && p < |a| && a[p] != b[p]
    requires forall j: nat | j < p :: a[j] == b[j]
    ensures BytesLess(a, b) <==> a[p] < b[p]
  {
    if p > 0 {
      BytesLessAt(a[1..], b[1..], p - 1);
    }
  }

  // Comparing byte by byte is comparing the big-endian integers.
  lemma BytesOrderIsIntegerOrder(a: seq<bv8>, b: seq<bv8>)
    requires |a| == |b|
    ensures BytesLess(a, b) <==> Value(Bits(a)) < Value(Bits(b))
    ensures a == b <==> Value(Bits(a)) == Value(Bits(b))
  {
    var x, y := Bits(a), Bits(b);
    ValueOrder(x, y);
    if x == y {
      BitsInjective(a, b);
      BytesLessIrreflexive(a);
    } else {
      FirstByteDiff(a, b);
    }
  }

  // The first differing byte is the one that holds the first differing bit.
  lemma FirstByteDiff(a: seq<bv8>, b: seq<bv8>)
    requires |a| == |b| && FirstDiff(Bits(a), Bits(b)) < 8 * |a|
    ensures a != b
    ensures BytesLess(a, b) <==> Bits(b)[FirstDiff(Bits(a), Bits(b))]
  {
    var q := FirstDiff(Bits(a), Bits(b));
    forall i: nat | i <= q
      ensures BitAt(a, i) == BitAt(b, i) <==> i < q
    {
      assert Bits(a)[i] == Bits(b)[i] <==> i < q;
    }
    SameBytesBefore(a, b, q);
    DifferingByte(a, b, q);
    BytesLessAt(a, b, q / 8);
  }

  lemma SameBytesBefore(a: seq<bv8>, b: seq<bv8>, q: nat)
    requires |a| == |b| && q < 8 * |a|
    requires forall i: nat | i < q :: BitAt(a, i) == BitAt(b, i)
    ensures forall j: nat | j < q / 8 :: a[j] == b[j]
  {
    forall j: nat | j < q / 8
      ensures a[j] == b[j]
    {
      SameBytes(a, b, j);
    }
  }

  lemma DifferingByte(a: seq<bv8>, b: seq<bv8>, q: nat)
    requires |a| == |b| && q < 8 * |a|
    requires forall i: nat | i < q :: BitAt(a, i) == BitAt(b, i)
    requires BitAt(a, q) != BitAt(b, q)
    ensures a[q / 8] != b[q / 8]
    ensures a[q / 8] < b[q / 8] <==> BitAt(b, q)
  {
    var p, r := q / 8, q % 8;
    forall i: nat | i < r
      ensures BitOf(a[p], i) == BitOf(b[p], i)
    {
      assert BitAt(a, 8 * p + i) == BitAt(b, 8 * p + i);
    }
    ByteOrder(a[p], b[p], r);
  }

  lemma {:induction false} BytesLessIrreflexive(a: seq<bv8>)
    ensures !BytesLess(a, a)
  {
    if a != [] {
      BytesLessIrreflexive(a[1..]);
    }
  }

  // ----- leading zeros and bucket levels -----

  // Key::leading_zeros_in_distance
  method LeadingZerosInDistance(self: Key, other: Key) returns (count: nat)
    ensures count == FirstDiff(KeyBits(self), KeyBits(other))
  {
    var distance := Distance(self, other);
    count := 0;
    for i := 0 to K
      invariant count == 8 * i
      invariant forall j | 0 <= j < i :: distance[j] == 0
    {
      if distance[i] == 0 {
        count := count + 8;
      } else {
        count := count + ByteLeadingZeros(distance[i]);
        ZeroBytesThen(self, other, i);
        return;
      }
    }
    ZeroBytesThen(self, other, K);
  }

  lemma ZeroBytesThen(a: Key, b: Key, i: nat)
    requires i <= K
    requires forall j | 0 <= j < i :: XorBytes(a.value, b.value)[j] == 0
    requires i < K ==> XorBytes(a.value, b.value)[i] != 0
    ensures FirstDiff(KeyBits(a), KeyBits(b)) ==
            8 * i + if i < K then ByteLeadingZeros(XorBytes(a.value, b.value)[i]) else 0
  {
    var x := XorBytes(a.value, b.value);
    forall j: nat | j < 8 * i
      ensures !BitAt(x, j)
    {
      ByteBits(x, j / 8);
    }
    if i < K {
      ByteBits(x, i);
      ZerosAreFirstDiff(a, b, 8 * i + ByteLeadingZeros(x[i]));
    } else {
      ZerosAreFirstDiff(a, b, KEY_BITS);
    }
  }

  lemma ByteBits(s: seq<bv8>, i: nat)
    requires i < |s|
    ensures ByteLeadingZeros(s[i]) < 8 <==> s[i] != 0
    ensures forall j: nat | 8 * i <= j < 8 * i + ByteLeadingZeros(s[i]) :: !BitAt(s, j)
    ensures s[i] != 0 ==> BitAt(s, 8 * i + ByteLeadingZeros(s[i]))
  {
  }

  lemma NonZeroByte(b: bv8)
    ensures ByteLeadingZeros(b) < 8 <==> b != 0
  {
  }

  lemma ZerosAreFirstDiff(a: Key, b: Key, n: nat)
    requires n <= KEY_BITS
    requires forall j: nat | j < n :: !BitAt(XorBytes(a.value, b.value), j)
    requires n < KEY_BITS ==> BitAt(XorBytes(a.value, b.value), n)
    ensures FirstDiff(KeyBits(a), KeyBits(b)) == n
  {
    var x := XorBytes(a.value, b.value);
    BitsOfXor(a.value, b.value);
    forall j: nat | j <= n && j < KEY_BITS
      ensures BitAt(x, j) == (KeyBits(a)[j] != KeyBits(b)[j])
    {
      assert Bits(x)[j] == XorBits(KeyBits(a), KeyBits(b))[j];
    }
    FirstDiffUnique(KeyBits(a), KeyBits(b), n);
  }

  lemma {:induction false} LevelAtFirstDiff(a: seq<bool>, b: seq<bool>)
    requires |a| == |b| && FirstDiff(a, b) < |a|
    ensures Pow2(|a| - 1 - FirstDiff(a, b)) <= Value(XorBits(a, b)) < Pow2(|a| - FirstDiff(a, b))
  {
    ValueLevel(XorBits(a, b), FirstDiff(a, b));
  }

  // A key whose first difference from `o` is at bit p lies at a distance
  // between 2^(159-p) and 2^(160-p).
  lemma DistanceLevel(o: Key, e: Key)
    requires o != e
    ensures FirstDiff(KeyBits(o), KeyBits(e)) < KEY_BITS
    ensures var p := FirstDiff(KeyBits(o), KeyBits(e));
            Pow2(KEY_BITS - 1 - p) <= Dist(o, e) < Pow2(KEY_BITS - p)
  {
    CloserByFirstDiff(o, e, o);
    BitsOfXor(o.value, e.value);
    LevelAtFirstDiff(KeyBits(o), KeyBits(e));
  }

  // The geometry of buckets. Let e share a longer prefix with o than f does,
  // and let p be where f leaves o. Then f is the closer one to t exactly when
  // t leaves o at bit p as well.
  lemma PrefixDecides(o: Key, t: Key, e: Key, f: Key)
    requires FirstDiff(KeyBits(o), KeyBits(f)) < FirstDiff(KeyBits(o), KeyBits(e))
    ensures var p := FirstDiff(KeyBits(o), KeyBits(f));
            (Dist(f, t) < Dist(e, t) <==> KeyBits(t)[p] != KeyBits(o)[p]) &&
            (Dist(e, t) < Dist(f, t) <==> KeyBits(t)[p] == KeyBits(o)[p])
  {
    var p := FirstDiff(KeyBits(o), KeyBits(f));
    FirstDiffUnique(KeyBits(e), KeyBits(f), p);
    CloserByFirstDiff(e, f, t);
  }
}
