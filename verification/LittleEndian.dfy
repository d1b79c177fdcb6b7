// Byte strings, and integers in little-endian order.
module LittleEndian {

  type byte = n: nat | n < 256
  type Bytes = seq<byte>

  function Pow256(w: nat): (r: nat)
    ensures r >= 1
  {
    if w == 0 then 1 else 256 * Pow256(w - 1)
  }

  function LeBytes(n: nat, w: nat): (r: Bytes)
    ensures |r| == w
    decreases w
  {
    var digit: int := n % 256;
    if w == 0 then [] else [digit] + LeBytes(n / 256, w - 1)
  }

  function LeValue(s: Bytes): nat {
    if s == [] then 0 else
      var digit: int := s[0];
      digit + 256 * LeValue(s[1..])
  }

  lemma {:induction false} LeValueOfBytes(n: nat, w: nat)
    requires n < Pow256(w)
    ensures LeValue(LeBytes(n, w)) == n
    decreases w
  {
    if w > 0 {
      LeValueOfBytes(n / 256, w - 1);
      assert LeBytes(n, w)[1..] == LeBytes(n / 256, w - 1);
    }
  }

  lemma Pow256Values()
    ensures Pow256(4) == 0x1_0000_0000
  {
  }

  // Byte i is the digit of 256 to the i.
  lemma {:induction false} LeByteAt(n: nat, w: nat, i: nat)
    requires i < w
    ensures LeBytes(n, w)[i] as int == n / Pow256(i) % 256
    decreases w
  {
    if i > 0 {
      LeByteAt(n / 256, w - 1, i - 1);
      assert LeBytes(n, w)[i] == LeBytes(n / 256, w - 1)[i - 1];
      DivTwice(n, Pow256(i - 1));
    }
  }

  lemma DivTwice(n: nat, b: nat)
    requires b > 0
    ensures n / 256 / b == n / (256 * b)
  {
    var q := n / 256 / b;
    var r := n - 256 * b * q;
    assert r == (n % 256) + 256 * ((n / 256) % b);
    assert 0 <= r < 256 * b;
    QuotientIs(n, 256 * b, q, r);
  }

  lemma QuotientIs(n: nat, b: nat, q: nat, r: nat)
    requires b > 0 && n == b * q + r && r < b
    ensures n / b == q
  {
    if n / b < q {
      Larger(b, n / b + 1, q);
    } else if n / b > q {
      Larger(b, q + 1, n / b);
    }
  }

  lemma Larger(b: nat, x: nat, y: nat)
    requires x <= y
    ensures b * x <= b * y
  {
  }
}
