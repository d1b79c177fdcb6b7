// Keys with one significant byte, for concrete examples.
module SmallKeys {
  import opened Keys
  import opened Contacts
  import opened Closest

  // The key whose only non-zero byte is the last one.
  function Small(b: bv8): Key {
    Key(seq(K - 1, _ => 0) + [b])
  }

  function Contact(b: bv8): NodeInfo {
    NodeInfo(Small(b), SocketAddr(0, 0))
  }

  lemma SmallDiffer(a: bv8, b: bv8)
    ensures Small(a) == Small(b) <==> a == b
    ensures Contact(a) == Contact(b) <==> a == b
  {
    assert Small(a).value[K - 1] == a && Small(b).value[K - 1] == b;
  }

  lemma XorZero(b: bv8)
    ensures b ^ 0 == b
  {
  }

  lemma SmallXor(b: bv8)
    ensures XorBytes(Small(b).value, Small(0).value) == Small(b).value
  {
    XorZero(0);
    XorZero(b);
  }

  lemma LastByteDecides(a: KeyValue, b: KeyValue)
    requires a[..K - 1] == b[..K - 1] && a[K - 1] < b[K - 1]
    ensures Value(Bits(a)) < Value(Bits(b))
  {
    forall j: nat | j < K - 1
      ensures a[j] == b[j]
    {
      assert a[..K - 1][j] == b[..K - 1][j];
    }
    BytesLessAt(a, b, K - 1);
    BytesOrderIsIntegerOrder(a, b);
  }

  // Their distance to zero is in the order of the byte.
  lemma SmallOrder(a: bv8, b: bv8)
    requires a < b
    ensures DistanceTo(Small(0))(Contact(a)) < DistanceTo(Small(0))(Contact(b))
  {
    SmallXor(a);
    SmallXor(b);
    LastByteDecides(Small(a).value, Small(b).value);
  }

  function ContactsOf(bytes: seq<bv8>): (c: seq<NodeInfo>)
    ensures |c| == |bytes|
    ensures forall i | 0 <= i < |c| :: c[i] == Contact(bytes[i])
  {
    seq(|bytes|, i requires 0 <= i < |bytes| => Contact(bytes[i]))
  }

  ghost predicate Ascending(bytes: seq<bv8>) {
    forall i, j | 0 <= i < j < |bytes| :: bytes[i] < bytes[j]
  }

  lemma ContactsInOrder(bytes: seq<bv8>)
    requires Ascending(bytes)
    ensures Increasing(ContactsOf(bytes), DistanceTo(Small(0)))
  {
    forall i, j | 0 <= i < j < |bytes|
      ensures DistanceTo(Small(0))(ContactsOf(bytes)[i]) < DistanceTo(Small(0))(ContactsOf(bytes)[j])
    {
      SmallOrder(bytes[i], bytes[j]);
    }
  }

  lemma NotAmong(bytes: seq<bv8>, b: bv8)
    requires b !in bytes
    ensures Contact(b) !in ContactsOf(bytes)
  {
    forall i | 0 <= i < |bytes|
      ensures ContactsOf(bytes)[i] != Contact(b)
    {
      SmallDiffer(bytes[i], b);
    }
  }
}
