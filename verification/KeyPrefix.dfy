// Forcing a key to share exactly n leading bits with another one.
module KeyPrefix {
  import opened Keys

  // ----- one byte -----

  // Bits of y where m has ones, bits of x elsewhere.
  function Blend(m: bv8, y: bv8, x: bv8): bv8 {
    (m & y) | (x & !m)
  }

  lemma BlendMask(m: bv8, y: bv8, x: bv8, h: bv8)
    requires SingleBit(h)
    ensures Test(Blend(m, y, x), h) == if Test(m, h) then Test(y, h) else Test(x, h)
  {
    if Test(m, h) {
      assert m & h == h;
      assert Blend(m, y, x) & h == y & h;
    } else {
      assert Blend(m, y, x) & h == x & h;
    }
  }

  lemma BlendBit(m: bv8, y: bv8, x: bv8, i: nat)
    requires i < 8
    ensures BitOf(Blend(m, y, x), i) == if BitOf(m, i) then BitOf(y, i) else BitOf(x, i)
  {
    BlendMask(m, y, x, Mask(i));
  }

  // The mask of the n leftmost bits.
  function LeftMask(n: nat): (m: bv8)
    requires n <= 8
  {
    if n == 0 then 0 else LeftMask(n - 1) | Mask(n - 1)
  }

  lemma MaskBit(r: nat, i: nat)
    requires r < 8 && i < 8
    ensures BitOf(Mask(r), i) <==> i == r
  {
  }

  lemma {:induction false} LeftMaskBit(n: nat, i: nat)
    requires n <= 8 && i < 8
    ensures BitOf(LeftMask(n), i) <==> i < n
  {
  }

  lemma NotBit(y: bv8, i: nat)
    requires i < 8
    ensures BitOf(!y, i) == !BitOf(y, i)
  {
  }

  // Byte r takes its first n bits from y and the others from x.
  ghost predicate Spliced(r: bv8, y: bv8, x: bv8, n: nat) {
    forall i: nat | i < 8 :: BitOf(r, i) == if i < n then BitOf(y, i) else BitOf(x, i)
  }

  lemma SpliceTwice(s: bv8, r: bv8, y: bv8, x: bv8, n: nat)
    requires Spliced(s, y, r, n)
    requires Spliced(r, y, x, n)
    ensures Spliced(s, y, x, n)
  {
  }

  lemma BlendSplices(y: bv8, x: bv8, n: nat)
    requires n < 8
    ensures Spliced(Blend(LeftMask(n), y, x), y, x, n)
  {
    forall i: nat | i < 8
      ensures BitOf(Blend(LeftMask(n), y, x), i) == if i < n then BitOf(y, i) else BitOf(x, i)
    {
      LeftMaskBit(n, i);
      BlendBit(LeftMask(n), y, x, i);
    }
  }

  method BuildMask(n: nat) returns (mask: bv8)
    requires n < 8
    ensures mask == LeftMask(n)
  {
    mask := 0;
    for bitI := 0 to n
      invariant mask == LeftMask(bitI)
    {
      MaskIsShift(bitI);
      mask := mask | ((1 as bv8) << (7 - bitI));
    }
  }

  method SpliceByte(mine: bv8, yours: bv8, n: nat) returns (r: bv8)
    requires n < 8
    ensures Spliced(r, yours, mine, n)
  {
    var mask := BuildMask(n);
    r := (mask & yours) | (mine & !mask);
    BlendSplices(yours, mine, n);
  }

  // Byte r is x with bit n set to the inverse of that bit of y.
  ghost predicate Flipped(r: bv8, y: bv8, x: bv8, n: nat) {
    forall i: nat | i < 8 :: BitOf(r, i) == if i == n then !BitOf(y, i) else BitOf(x, i)
  }

  lemma BlendFlips(y: bv8, x: bv8, n: nat)
    requires n < 8
    ensures Flipped(Blend(Mask(n), !y, x), y, x, n)
  {
    forall i: nat | i < 8
      ensures BitOf(Blend(Mask(n), !y, x), i) == if i == n then !BitOf(y, i) else BitOf(x, i)
    {
      FlipOneBit(y, x, n, i);
    }
  }

  lemma FlipOneBit(y: bv8, x: bv8, n: nat, i: nat)
    requires n < 8 && i < 8
    ensures BitOf(Blend(Mask(n), !y, x), i) == if i == n then !BitOf(y, i) else BitOf(x, i)
  {
    MaskBit(n, i);
    NotBit(y, i);
    BlendBit(Mask(n), !y, x, i);
  }

  method FlipBit(mine: bv8, yours: bv8, n: nat) returns (r: bv8)
    requires n < 8
    ensures Flipped(r, yours, mine, n)
  {
    MaskIsShift(n);
    var mask := (1 as bv8) << (7 - n);
    var yourBitNeg := mask & !yours;
    r := yourBitNeg | (mine & !mask);
    BlendFlips(yours, mine, n);
  }

  // ----- whole keys -----

  // Bit for bit: n bits of the key, its next bit flipped, then the old bits.
  ghost predicate SharesExactly(after: seq<bv8>, key: seq<bv8>, before: seq<bv8>, n: nat)
    requires |after| == |key| == |before|
  {
    forall i: nat | i < 8 * |key| ::
      BitAt(after, i) == if i < n then BitAt(key, i) else if i == n then !BitAt(key, i) else BitAt(before, i)
  }

  // The byte loop: copy whole bytes, then splice the last partial one.
  method CopyLeadingBits(self: array<bv8>, key: KeyValue, n: nat) returns (byteI: nat, nBits: nat)
    requires self.Length == K
    modifies self
    ensures byteI <= K && n == 8 * byteI + nBits
    ensures byteI < K ==> nBits < 8 && Spliced(self[byteI], key[byteI], old(self[byteI]), nBits)
    ensures forall j | 0 <= j < byteI :: self[j] == key[j]
    ensures forall j | byteI < j < K :: self[j] == old(self[j])
  {
    nBits, byteI := n, 0;
    for s := 0 to K
      invariant byteI <= s && n == 8 * byteI + nBits
      invariant forall j | 0 <= j < byteI :: self[j] == key[j]
      invariant forall j | byteI < j < K :: self[j] == old(self[j])
      invariant byteI == s < K ==> self[byteI] == old(self[byteI])
      invariant byteI < s ==> nBits < 8 && Spliced(self[byteI], key[byteI], old(self[byteI]), nBits)
    {
      if nBits >= 8 {
        self[byteI] := key[byteI];
        nBits := nBits - 8;
        byteI := byteI + 1;
      } else {
        var b := SpliceByte(self[byteI], key[byteI], nBits);
        if byteI < s {
          SpliceTwice(b, self[byteI], key[byteI], old(self[byteI]), nBits);
        }
        self[byteI] := b;
      }
    }
  }

  // Key::make_exactly_n_same_leading_bits_as
  method MakeExactlyNSameLeadingBitsAs(self: array<bv8>, key: KeyValue, n: nat)
    requires self.Length == K
    modifies self
    ensures SharesExactly(self[..], key, old(self[..]), n)
  {
    var byteI, nBits := CopyLeadingBits(self, key, n);
    if byteI < K {
      var b := FlipBit(self[byteI], key[byteI], nBits);
      self[byteI] := b;
    }
  }

  // The refresh id of a bucket: after the call the key leaves the own id at
  // bit n exactly, so it lies in the bucket the caller asked for.
  lemma LeavesAtBit(own: Key, key: Key, before: KeyValue, n: nat)
    requires n < KEY_BITS
    requires SharesExactly(key.value, own.value, before, n)
    ensures FirstDiff(KeyBits(own), KeyBits(key)) == n
  {
    FirstDiffUnique(KeyBits(own), KeyBits(key), n);
  }
}
