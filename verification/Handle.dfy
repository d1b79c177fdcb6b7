// The file handle: metadata as a printable string, and back.
module Handles {
  import opened Keys
  import opened Common
  import opened LittleEndian
  import opened Sharding

  // ----- hexadecimal -----

  const DIGITS: string := "0123456789abcdef"

  function HexDigit(c: char): (r: Option<nat>)
    ensures r.Some? ==> r.value < 16
  {
    if '0' <= c <= '9' then Some((c - '0') as int)
    else if 'a' <= c <= 'f' then Some(10 + (c - 'a') as int)
    else if 'A' <= c <= 'F' then Some(10 + (c - 'A') as int)
    else None
  }

  lemma DigitRoundTrip(d: nat)
    requires d < 16
    ensures HexDigit(DIGITS[d]) == Some(d)
  {
  }

  // hex::encode
  function HexEncode(s: Bytes): (r: string)
    ensures |r| == 2 * |s|
  {
    if s == [] then "" else
      var b: int := s[0];
      [DIGITS[b / 16], DIGITS[b % 16]] + HexEncode(s[1..])
  }

  // hex::decode: two digits a byte, either case.
  function HexDecode(s: string): Option<Bytes>
  {
    if s == "" then Some([])
    else if |s| == 1 then None
    else
      var hi, lo, rest := HexDigit(s[0]), HexDigit(s[1]), HexDecode(s[2..]);
      if hi.None? || lo.None? || rest.None? then None
      else
        var b: int := 16 * hi.value + lo.value;
        Some([b] + rest.value)
  }

  lemma {:induction false} HexRoundTrip(s: Bytes)
    ensures HexDecode(HexEncode(s)) == Some(s)
  {
    if s != [] {
      HexRoundTrip(s[1..]);
      OneMoreByte(s[0], s[1..]);
      assert s == [s[0]] + s[1..];
    }
  }

  lemma {:induction false} OneMoreByte(b: byte, rest: Bytes)
    requires HexDecode(HexEncode(rest)) == Some(rest)
    ensures HexDecode(HexEncode([b] + rest)) == Some([b] + rest)
  {
    var n: int := b;
    DigitRoundTrip(n / 16);
    DigitRoundTrip(n % 16);
    assert ([b] + rest)[1..] == rest;
    DecodePair(DIGITS[n / 16], DIGITS[n % 16], HexEncode(rest), n / 16, n % 16, rest);
  }

  lemma {:induction false} DecodePair(h: char, l: char, tail: string, hi: nat, lo: nat, rest: Bytes)
    requires HexDigit(h) == Some(hi) && HexDigit(l) == Some(lo) && HexDecode(tail) == Some(rest)
    ensures hi < 16 && lo < 16
    ensures HexDecode([h, l] + tail) == Some([16 * hi + lo] + rest)
  {
  }

  predicate IsHex(c: char) {
    '0' <= c <= '9' || 'a' <= c <= 'f' || 'A' <= c <= 'F'
  }

  // Exactly the strings of evenly many digits, of either case, are decoded.
  lemma {:induction false} DecodesIff(s: string)
    ensures HexDecode(s).Some? <==> |s| % 2 == 0 && forall i | 0 <= i < |s| :: IsHex(s[i])
  {
    if |s| >= 2 {
      DecodesIff(s[2..]);
      assert forall i | 2 <= i < |s| :: s[i] == s[2..][i - 2];
    }
  }

  // ----- keys as hex strings -----

  function KeyBytes(k: Key): (r: Bytes)
    ensures |r| == K
  {
    seq(K, i requires 0 <= i < K => k.value[i] as int)
  }

  // Key::to_hex_string
  function KeyToHex(k: Key): (s: string)
    ensures |s| == 2 * K
  {
    HexEncode(KeyBytes(k))
  }

  // Key::from_hex_str
  function KeyFromHex(s: string): Option<Key> {
    if |s| != 2 * K then None
    else
      var bytes := HexDecode(s);
      if bytes.None? || |bytes.value| != K then None
      else Some(Key(seq(K, i requires 0 <= i < K => bytes.value[i] as bv8)))
  }

  lemma KeyHexRoundTrip(k: Key)
    ensures KeyFromHex(KeyToHex(k)) == Some(k)
  {
    HexRoundTrip(KeyBytes(k));
    var v := seq(K, i requires 0 <= i < K => KeyBytes(k)[i] as bv8);
    assert v == k.value;
  }

  // ----- the binary record: fixed-width lengths, fields in order -----

  const U64: nat := 8

  datatype Parsed<+T> = Parsed(value: T, rest: Bytes) | Bad

  // UTF-8 is the language's own; decoding inverts encoding.
  datatype Text = Text(encode: string -> Bytes, decode: Bytes -> Option<string>)

  ghost predicate Faithful(t: Text) {
    forall s :: t.decode(t.encode(s)) == Some(s)
  }

  function PutBytes(b: Bytes): Bytes {
    LeBytes(|b|, U64) + b
  }

  function GetLength(s: Bytes): Parsed<nat> {
    if |s| < U64 then Bad else Parsed(LeValue(s[..U64]), s[U64..])
  }

  function GetBytes(s: Bytes): Parsed<Bytes> {
    var n := GetLength(s);
    if n.Bad? || |n.rest| < n.value then Bad else Parsed(n.rest[..n.value], n.rest[n.value..])
  }

  lemma LengthBack(n: nat, rest: Bytes)
    requires n < Pow256(U64)
    ensures GetLength(LeBytes(n, U64) + rest) == Parsed(n, rest)
  {
    var s := LeBytes(n, U64) + rest;
    assert s[..U64] == LeBytes(n, U64) && s[U64..] == rest;
    LeValueOfBytes(n, U64);
  }

  lemma BytesBack(b: Bytes, rest: Bytes)
    requires |b| < Pow256(U64)
    ensures GetBytes(PutBytes(b) + rest) == Parsed(b, rest)
  {
    assert PutBytes(b) + rest == LeBytes(|b|, U64) + (b + rest);
    LengthBack(|b|, b + rest);
    assert (b + rest)[..|b|] == b && (b + rest)[|b|..] == rest;
  }

  // Hex text is one byte a character; other bytes never make a key.
  function Ascii(s: string): (r: Bytes)
    requires forall c | c in s :: c < 128 as char
    ensures |r| == |s|
  {
    seq(|s|, i requires 0 <= i < |s| => assert s[i] in s; CharByte(s[i]))
  }

  function CharByte(c: char): (b: byte)
    requires c < 128 as char
    ensures b as int == c as int
  {
    c as int
  }

  function FromAscii(s: Bytes): Option<string> {
    if forall i | 0 <= i < |s| :: s[i] < 128 then
      Some(seq(|s|, i requires 0 <= i < |s| => var n: int := s[i]; n as char))
    else None
  }

  lemma {:induction false} HexIsAscii(s: Bytes)
    ensures forall c | c in HexEncode(s) :: c < 128 as char
  {
    if s != [] {
      HexIsAscii(s[1..]);
      assert forall d | 0 <= d < 16 :: DIGITS[d] < 128 as char;
    }
  }

  function PutKey(k: Key): Bytes {
    HexIsAscii(KeyBytes(k));
    PutBytes(Ascii(KeyToHex(k)))
  }

  function GetKey(s: Bytes): Parsed<Key> {
    var b := GetBytes(s);
    if b.Bad? then Bad
    else
      var text := FromAscii(b.value);
      if text.None? then Bad
      else
        var key := KeyFromHex(text.value);
        if key.None? then Bad else Parsed(key.value, b.rest)
  }

  lemma KeyBack(k: Key, rest: Bytes)
    ensures GetKey(PutKey(k) + rest) == Parsed(k, rest)
  {
    HexIsAscii(KeyBytes(k));
    var b := Ascii(KeyToHex(k));
    FortyFits();
    BytesBack(b, rest);
    AsciiBack(KeyToHex(k));
    KeyHexRoundTrip(k);
  }

  lemma FortyFits()
    ensures 2 * K < Pow256(U64)
  {
  }

  lemma AsciiBack(s: string)
    requires forall c | c in s :: c < 128 as char
    ensures FromAscii(Ascii(s)) == Some(s)
  {
    var b := Ascii(s);
    forall i | 0 <= i < |s|
      ensures b[i] < 128 && b[i] == s[i] as int
    {
      assert s[i] in s;
    }
    assert FromAscii(b).value == s;
  }

  function PutChunk(c: ChunkMetadata): Bytes {
    PutKey(c.hash) + PutBytes(c.nonce)
  }

  function GetChunk(s: Bytes): Parsed<ChunkMetadata> {
    var key := GetKey(s);
    if key.Bad? then Bad
    else
      var nonce := GetBytes(key.rest);
      if nonce.Bad? then Bad else Parsed(ChunkMetadata(key.value, nonce.value), nonce.rest)
  }

  lemma ChunkBack(c: ChunkMetadata, rest: Bytes)
    requires |c.nonce| < Pow256(U64)
    ensures GetChunk(PutChunk(c) + rest) == Parsed(c, rest)
  {
    assert PutChunk(c) + rest == PutKey(c.hash) + (PutBytes(c.nonce) + rest);
    KeyBack(c.hash, PutBytes(c.nonce) + rest);
    BytesBack(c.nonce, rest);
  }

  // Lists, for any kind of item.
  function PutMany<T>(xs: seq<T>, put: T -> Bytes): Bytes {
    if xs == [] then [] else put(xs[0]) + PutMany(xs[1..], put)
  }

  function GetMany<T>(s: Bytes, n: nat, get: Bytes -> Parsed<T>): Parsed<seq<T>>
    decreases n
  {
    if n == 0 then Parsed([], s)
    else
      var x := get(s);
      if x.Bad? then Bad
      else
        var xs := GetMany(x.rest, n - 1, get);
        if xs.Bad? then Bad else Parsed([x.value] + xs.value, xs.rest)
  }

  // get reads back what put wrote, and stops there.
  ghost predicate ReadsBack<T>(x: T, put: T -> Bytes, get: Bytes -> Parsed<T>) {
    forall rest: Bytes :: get(put(x) + rest) == Parsed(x, rest)
  }

  lemma {:induction false} ManyBack<T>(xs: seq<T>, put: T -> Bytes, get: Bytes -> Parsed<T>, rest: Bytes)
    requires forall x | x in xs :: ReadsBack(x, put, get)
    ensures GetMany(PutMany(xs, put) + rest, |xs|, get) == Parsed(xs, rest)
  {
    if xs == [] {
      assert PutMany(xs, put) + rest == rest;
    } else {
      var tail := PutMany(xs[1..], put) + rest;
      AllReadBack(xs, put, get);
      ManyBack(xs[1..], put, get, rest);
      FirstItem(xs, put, rest);
      ReadOne(xs[0], put, get, tail);
      NextItem(PutMany(xs, put) + rest, xs[0], tail, xs[1..], get, rest);
    }
  }

  lemma AllReadBack<T>(xs: seq<T>, put: T -> Bytes, get: Bytes -> Parsed<T>)
    requires xs != [] && forall x | x in xs :: ReadsBack(x, put, get)
    ensures ReadsBack(xs[0], put, get) && forall x | x in xs[1..] :: ReadsBack(x, put, get)
    ensures xs == [xs[0]] + xs[1..]
  {
    assert xs[0] in xs && forall x | x in xs[1..] :: x in xs;
  }

  lemma ReadOne<T>(x: T, put: T -> Bytes, get: Bytes -> Parsed<T>, tail: Bytes)
    requires ReadsBack(x, put, get)
    ensures get(put(x) + tail) == Parsed(x, tail)
  {
  }

  lemma NextItem<T>(s: Bytes, x: T, tail: Bytes, xs: seq<T>, get: Bytes -> Parsed<T>, rest: Bytes)
    requires get(s) == Parsed(x, tail) && GetMany(tail, |xs|, get) == Parsed(xs, rest)
    ensures GetMany(s, |xs| + 1, get) == Parsed([x] + xs, rest)
  {
  }

  lemma FirstItem<T>(xs: seq<T>, put: T -> Bytes, rest: Bytes)
    requires xs != []
    ensures PutMany(xs, put) + rest == put(xs[0]) + (PutMany(xs[1..], put) + rest)
  {
  }

  // The chunk list with its length in front.
  function PutChunkList(cs: seq<ChunkMetadata>): Bytes {
    LeBytes(|cs|, U64) + PutMany(cs, PutChunk)
  }

  function GetChunkList(s: Bytes): Parsed<seq<ChunkMetadata>> {
    var n := GetLength(s);
    if n.Bad? then Bad else GetMany(n.rest, n.value, GetChunk)
  }

  lemma ChunkListBack(cs: seq<ChunkMetadata>, rest: Bytes)
    requires |cs| < Pow256(U64) && forall c | c in cs :: |c.nonce| < Pow256(U64)
    ensures GetChunkList(PutChunkList(cs) + rest) == Parsed(cs, rest)
  {
    var body := PutMany(cs, PutChunk);
    assert PutChunkList(cs) + rest == LeBytes(|cs|, U64) + (body + rest);
    LengthBack(|cs|, body + rest);
    forall c | c in cs
      ensures ReadsBack(c, PutChunk, GetChunk)
    {
      ChunkReadsBack(c);
    }
    ManyBack(cs, PutChunk, GetChunk, rest);
  }

  lemma ChunkReadsBack(c: ChunkMetadata)
    requires |c.nonce| < Pow256(U64)
    ensures ReadsBack(c, PutChunk, GetChunk)
  {
    forall rest: Bytes
      ensures GetChunk(PutChunk(c) + rest) == Parsed(c, rest)
    {
      ChunkBack(c, rest);
    }
  }

  function Serialize(md: FileMetadata, t: Text): Bytes {
    PutBytes(t.encode(md.name)) + PutBytes(md.encryptionKey) + PutChunkList(md.chunks)
  }

  // Bytes after the record are ignored.
  function Deserialize(s: Bytes, t: Text): Option<FileMetadata> {
    var name := GetBytes(s);
    if name.Bad? || t.decode(name.value).None? then None
    else
      var key := GetBytes(name.rest);
      if key.Bad? then None
      else
        var chunks := GetChunkList(key.rest);
        if chunks.Bad? then None
        else Some(FileMetadata(t.decode(name.value).value, key.value, chunks.value))
  }

  // Lengths fit the machine's 64 bits.
  ghost predicate Fits(md: FileMetadata, t: Text) {
    && |t.encode(md.name)| < Pow256(U64) && |md.encryptionKey| < Pow256(U64) && |md.chunks| < Pow256(U64)
    && forall c | c in md.chunks :: |c.nonce| < Pow256(U64)
  }

  lemma RecordBack(md: FileMetadata, t: Text, rest: Bytes)
    requires Faithful(t) && Fits(md, t)
    ensures Deserialize(Serialize(md, t) + rest, t) == Some(md)
  {
    var c := PutChunkList(md.chunks) + rest;
    var b := PutBytes(md.encryptionKey) + c;
    SerializeSplit(md, t, rest);
    BytesBack(t.encode(md.name), b);
    BytesBack(md.encryptionKey, c);
    ChunkListBack(md.chunks, rest);
  }

  lemma SerializeSplit(md: FileMetadata, t: Text, rest: Bytes)
    ensures Serialize(md, t) + rest ==
            PutBytes(t.encode(md.name)) + (PutBytes(md.encryptionKey) + (PutChunkList(md.chunks) + rest))
  {
    Grouped(PutBytes(t.encode(md.name)), PutBytes(md.encryptionKey), PutChunkList(md.chunks), rest);
  }

  lemma Grouped(a: Bytes, b: Bytes, c: Bytes, d: Bytes)
    ensures a + b + c + d == a + (b + (c + d))
  {
  }

  // Display for FileMetadata
  function Print(md: FileMetadata, t: Text): string {
    HexEncode(Serialize(md, t))
  }

  // FromStr for FileMetadata
  function Parse(s: string, t: Text): Option<FileMetadata> {
    var bytes := HexDecode(s);
    if bytes.None? then None else Deserialize(bytes.value, t)
  }

  // Parsing a printed handle gives the metadata back.
  lemma HandleRoundTrip(md: FileMetadata, t: Text)
    requires Faithful(t) && Fits(md, t)
    ensures Parse(Print(md, t), t) == Some(md)
  {
    HexRoundTrip(Serialize(md, t));
    RecordBack(md, t, []);
    assert Serialize(md, t) + [] == Serialize(md, t);
  }

  // ----- the printed format -----

  // Lower-case digits.
  predicate Prints(c: char, d: nat)
    requires d < 16
  {
    if d < 10 then c as int == '0' as int + d else c as int == 'a' as int + (d - 10)
  }

  lemma DigitPrints(d: nat)
    requires d < 16
    ensures Prints(DIGITS[d], d)
  {
  }

  // Two of them for each byte, the higher half first.
  lemma {:induction false} HexEncodeAt(s: Bytes, i: nat)
    requires i < |s|
    ensures Prints(HexEncode(s)[2 * i], s[i] as int / 16) && Prints(HexEncode(s)[2 * i + 1], s[i] as int % 16)
  {
    if i == 0 {
      DigitPrints(s[0] as int / 16);
      DigitPrints(s[0] as int % 16);
    } else {
      HexEncodeAt(s[1..], i - 1);
      HexEncodeLater(s, 2 * i);
      HexEncodeLater(s, 2 * i + 1);
    }
  }

  lemma HexEncodeLater(s: Bytes, j: nat)
    requires s != [] && 2 <= j < 2 * |s|
    ensures HexEncode(s)[j] == HexEncode(s[1..])[j - 2]
  {
  }

  // Lengths take eight bytes, least significant first.
  ghost predicate LengthIs(b: Bytes, n: nat) {
    |b| == 8 && forall i | 0 <= i < 8 :: b[i] as int == n / Pow256(i) % 256
  }

  lemma LengthBytes(n: nat)
    ensures LengthIs(LeBytes(n, U64), n)
  {
    forall i | 0 <= i < 8
      ensures LeBytes(n, U64)[i] as int == n / Pow256(i) % 256
    {
      LeByteAt(n, U64, i);
    }
  }

  // The record: name, key and number of chunks, each length in front of what it
  // counts; then the chunks, 56 bytes and the nonce each.
  lemma RecordLayout(md: FileMetadata, t: Text) returns (n8: Bytes, k8: Bytes, c8: Bytes, body: Bytes)
    ensures Serialize(md, t) == (n8 + t.encode(md.name)) + (k8 + md.encryptionKey) + (c8 + body)
    ensures LengthIs(n8, |t.encode(md.name)|) && LengthIs(k8, |md.encryptionKey|) && LengthIs(c8, |md.chunks|)
    ensures |body| == ChunkBytes(md.chunks)
  {
    n8, k8, c8 := LeBytes(|t.encode(md.name)|, U64), LeBytes(|md.encryptionKey|, U64), LeBytes(|md.chunks|, U64);
    body := PutMany(md.chunks, PutChunk);
    LengthBytes(|t.encode(md.name)|);
    LengthBytes(|md.encryptionKey|);
    LengthBytes(|md.chunks|);
    ChunkSizes(md.chunks);
  }

  function ChunkBytes(cs: seq<ChunkMetadata>): nat {
    if cs == [] then 0 else 56 + |cs[0].nonce| + ChunkBytes(cs[1..])
  }

  lemma {:induction false} ChunkSizes(cs: seq<ChunkMetadata>)
    ensures |PutMany(cs, PutChunk)| == ChunkBytes(cs)
  {
    if cs != [] {
      ChunkSizes(cs[1..]);
    }
  }
}
