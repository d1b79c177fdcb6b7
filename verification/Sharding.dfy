// Cutting a file into encrypted chunks and putting it together again.
module Sharding {
  import opened Keys
  import opened Common
  import opened LittleEndian

  const PADDED_SIZE_B: nat := 1024 * 1024
  const U32_SIZE_B: nat := 4
  const AUTH_TAG_SIZE_B: nat := 16
  const ENCRYPTED_CHUNK_SIZE_B: nat := PADDED_SIZE_B + U32_SIZE_B + AUTH_TAG_SIZE_B
  const MAX_FILE_SIZE_B: nat := 4096 * 1024 * 1024

  datatype Error =
    FileTooBig | MetadataNotFilled | UnwantedChunk | ChunkHashMismatch | EmptyChunk | EncryptionError | Panic
  type ShardResult<+T> = Result<T, Error>

  datatype Chunk = Chunk(data: Bytes, hash: Key)
  datatype ChunkMetadata = ChunkMetadata(hash: Key, nonce: Bytes)
  datatype FileMetadata = FileMetadata(name: string, encryptionKey: Bytes, chunks: seq<ChunkMetadata>)

  // The cipher and the hash are foreign code. Of the cipher it is assumed that
  // decryption with the same key and nonce inverts encryption, and that the
  // ciphertext is 16 bytes longer than the payload.
  datatype Crypto = Crypto(
    encrypt: (Bytes, Bytes, Bytes) -> Option<Bytes>,
    decrypt: (Bytes, Bytes, Bytes) -> Option<Bytes>,
    hash: Bytes -> Key)

  ghost predicate Inverse(c: Crypto) {
    forall payload, key, nonce | c.encrypt(payload, key, nonce).Some? ::
      && c.decrypt(c.encrypt(payload, key, nonce).value, key, nonce) == Some(payload)
      && |c.encrypt(payload, key, nonce).value| == |payload| + AUTH_TAG_SIZE_B
  }

  // ----- one chunk -----

  // The plaintext of a chunk: data, padding, and the size of the data.
  function Plaintext(data: Bytes, padding: Bytes): (r: Bytes)
    requires |data| + |padding| == PADDED_SIZE_B
    ensures |r| == PADDED_SIZE_B + U32_SIZE_B
  {
    data + padding + LeBytes(|data|, U32_SIZE_B)
  }

  // What the downloader cuts out of a plaintext.
  function Unpadded(plain: Bytes): Bytes
    requires |plain| >= PADDED_SIZE_B + U32_SIZE_B
  {
    var size := LeValue(plain[PADDED_SIZE_B..PADDED_SIZE_B + U32_SIZE_B]);
    var padded := plain[..PADDED_SIZE_B];
    if size < |padded| then padded[..size] else padded
  }

  lemma UnpaddedPlaintext(data: Bytes, padding: Bytes)
    requires |data| + |padding| == PADDED_SIZE_B
    ensures Unpadded(Plaintext(data, padding)) == data
  {
    var plain := Plaintext(data, padding);
    assert plain[PADDED_SIZE_B..PADDED_SIZE_B + U32_SIZE_B] == LeBytes(|data|, U32_SIZE_B);
    Pow256Values();
    LeValueOfBytes(|data|, U32_SIZE_B);
    assert plain[..PADDED_SIZE_B] == data + padding;
  }

  // A chunk that the downloader accepts for this metadata.
  ghost predicate Accepts(c: Crypto, key: Bytes, chunk: Chunk, md: ChunkMetadata) {
    && chunk.data != [] && chunk.hash == md.hash
    && c.decrypt(chunk.data, key, md.nonce).Some?
    && |c.decrypt(chunk.data, key, md.nonce).value| >= PADDED_SIZE_B + U32_SIZE_B
  }

  // The piece of the file it holds.
  ghost function Piece(c: Crypto, key: Bytes, chunk: Chunk, md: ChunkMetadata): Bytes
    requires Accepts(c, key, chunk, md)
  {
    Unpadded(c.decrypt(chunk.data, key, md.nonce).value)
  }

  ghost predicate Decodes(c: Crypto, key: Bytes, chunk: Chunk, md: ChunkMetadata, data: Bytes) {
    Accepts(c, key, chunk, md) && Piece(c, key, chunk, md) == data
  }

  // The chunk's key, in chunk and metadata, is the hash of its own padded data:
  // of what stands in front of the size once the chunk is decrypted.
  ghost predicate Keyed(c: Crypto, key: Bytes, chunk: Chunk, md: ChunkMetadata) {
    var plain := c.decrypt(chunk.data, key, md.nonce);
    && plain.Some? && |plain.value| == PADDED_SIZE_B + U32_SIZE_B
    && chunk.hash == md.hash == c.hash(plain.value[..PADDED_SIZE_B])
  }

  // The decrypted chunk: data, padding, and the size of the data in four bytes.
  ghost predicate Laid(c: Crypto, key: Bytes, chunk: Chunk, nonce: Bytes, data: Bytes, padding: Bytes) {
    var plain := c.decrypt(chunk.data, key, nonce);
    && plain.Some? && |plain.value| == PADDED_SIZE_B + U32_SIZE_B
    && plain.value[..PADDED_SIZE_B] == data + padding && LeValue(plain.value[PADDED_SIZE_B..]) == |data|
  }

  ghost predicate AllKeyed(c: Crypto, key: Bytes, chunks: seq<Chunk>, mds: seq<ChunkMetadata>) {
    |chunks| == |mds| && forall i | 0 <= i < |chunks| :: Keyed(c, key, chunks[i], mds[i])
  }

  lemma KeyedMore(c: Crypto, key: Bytes, chunks: seq<Chunk>, mds: seq<ChunkMetadata>, chunk: Chunk, md: ChunkMetadata)
    requires AllKeyed(c, key, chunks, mds) && Keyed(c, key, chunk, md)
    ensures AllKeyed(c, key, chunks + [chunk], mds + [md])
  {
  }

  ghost predicate AllAccepted(c: Crypto, key: Bytes, chunks: seq<Chunk>, mds: seq<ChunkMetadata>) {
    |chunks| == |mds| && forall i | 0 <= i < |chunks| :: Accepts(c, key, chunks[i], mds[i])
  }

  // The file the first n chunks make up.
  ghost function Assembled(c: Crypto, key: Bytes, chunks: seq<Chunk>, mds: seq<ChunkMetadata>, n: nat): Bytes
    requires AllAccepted(c, key, chunks, mds) && n <= |chunks|
  {
    if n == 0 then [] else Assembled(c, key, chunks, mds, n - 1) + Piece(c, key, chunks[n - 1], mds[n - 1])
  }

  ghost predicate Holds(c: Crypto, key: Bytes, chunks: seq<Chunk>, mds: seq<ChunkMetadata>, file: Bytes) {
    AllAccepted(c, key, chunks, mds) && Assembled(c, key, chunks, mds, |chunks|) == file
  }

  lemma {:induction false} AssembledPrefix(c: Crypto, key: Bytes, chunks: seq<Chunk>, mds: seq<ChunkMetadata>,
                                        chunk: Chunk, md: ChunkMetadata, n: nat)
    requires AllAccepted(c, key, chunks, mds) && AllAccepted(c, key, chunks + [chunk], mds + [md]) && n <= |chunks|
    ensures Assembled(c, key, chunks + [chunk], mds + [md], n) == Assembled(c, key, chunks, mds, n)
  {
    if n > 0 {
      AssembledPrefix(c, key, chunks, mds, chunk, md, n - 1);
    }
  }

  lemma HoldsMore(c: Crypto, key: Bytes, chunks: seq<Chunk>, mds: seq<ChunkMetadata>, file: Bytes, chunk: Chunk,
                  md: ChunkMetadata)
    requires Holds(c, key, chunks, mds, file) && Accepts(c, key, chunk, md)
    ensures Holds(c, key, chunks + [chunk], mds + [md], file + Piece(c, key, chunk, md))
  {
    AssembledPrefix(c, key, chunks, mds, chunk, md, |chunks|);
  }

  // ----- uploading -----

  // What the environment gives a call: the number of bytes the read returns,
  // the random padding, and the nonce.
  datatype Draw = Draw(got: nat, padding: Bytes, nonce: Bytes)

  // A read returns no bytes exactly at the end of the file, and otherwise any
  // number of bytes that are there and fit into the buffer.
  predicate Fair(d: Draw, remaining: nat) {
    && d.got <= remaining && d.got <= PADDED_SIZE_B
    && (d.got == 0 <==> remaining == 0)
    && |d.padding| == PADDED_SIZE_B - d.got
  }

  class FileUploader {
    const file: Bytes
    const crypto: Crypto
    var position: nat
    var metadata: FileMetadata
    // the chunks handed out, the portions they hold, and whether the cipher ever refused
    ghost var sent: seq<Chunk>
    ghost var portions: seq<Portion>
    ghost var refused: bool

    // The chunks have the fixed size and their keys, the metadata describes the portions, and
    // unless the cipher refused, chunks and metadata make up what was read.
    ghost predicate Valid()
      reads this
    {
      && position <= |file| && (forall i | 0 <= i < |sent| :: |sent[i].data| == ENCRYPTED_CHUNK_SIZE_B)
      && AllKeyed(crypto, metadata.encryptionKey, sent, metadata.chunks)
      && Describes(metadata.chunks, crypto, portions) && AllEncrypt(crypto, metadata.encryptionKey, portions)
      && (!refused ==> Holds(crypto, metadata.encryptionKey, sent, metadata.chunks, file[..position]))
    }

    constructor (name: string, file: Bytes, encryptionKey: Bytes, crypto: Crypto)
      ensures Valid() && this.file == file && this.crypto == crypto && position == 0
      ensures metadata == FileMetadata(name, encryptionKey, []) && sent == [] && portions == [] && !refused
    {
      this.file, this.crypto, position := file, crypto, 0;
      metadata := FileMetadata(name, encryptionKey, []);
      sent, portions, refused := [], [], false;
    }

    // The portion a call reads, pads and encrypts.
    ghost function NextPortion(d: Draw): Portion
      requires Valid() && Fair(d, |file| - position)
      reads this
    {
      PortionAt(file, position, d)
    }

    // FileUploader::get_next_chunk_encrypt
    method GetNextChunkEncrypt(d: Draw) returns (r: ShardResult<Option<Chunk>>)
      requires Valid() && Fair(d, |file| - position) && Inverse(crypto)
      modifies this
      ensures Valid() && position == old(position) + d.got
      ensures r == Ok(None) <==> old(position) == |file|
      ensures var p, key := old(NextPortion(d)), old(metadata).encryptionKey;
              && (r.Err? <==> old(position) < |file| && !Encrypts(crypto, key, p))
              && (r.Err? ==> r.error == EncryptionError)
              && refused == (old(refused) || r.Err?)
              && if r.Ok? && r.value.Some? then
                   && sent == old(sent) + [r.value.value] && portions == old(portions) + [p]
                   && metadata == old(metadata).(chunks := old(metadata).chunks + [MetadataOf(crypto, p)])
                   && Decodes(crypto, key, r.value.value, MetadataOf(crypto, p), p.data)
                   && Keyed(crypto, key, r.value.value, MetadataOf(crypto, p))
                   && r.value.value.hash == crypto.hash(p.data + p.padding)
                   && Laid(crypto, key, r.value.value, p.nonce, p.data, p.padding)
                 else
                   sent == old(sent) && portions == old(portions) && metadata == old(metadata)
    {
      ghost var p, mds := NextPortion(d), metadata.chunks;
      var start := position;
      position := position + d.got;
      if d.got == 0 {
        return Ok(None);
      }
      var padded := file[start..position];
      if d.got < PADDED_SIZE_B {
        padded := padded + d.padding;
      }
      PaddedData(p, padded);
      var hash := crypto.hash(padded);
      var payload := padded + LeBytes(d.got, U32_SIZE_B);
      var encrypted := crypto.encrypt(payload, metadata.encryptionKey, d.nonce);
      if encrypted.None? {
        refused := true;
        return Err(EncryptionError);
      }
      var chunk := Chunk(encrypted.value, hash);
      ChunkOfPortion(crypto, metadata.encryptionKey, p, chunk);
      if !refused {
        HoldsNext(crypto, metadata.encryptionKey, sent, mds, file, start, position, chunk, MetadataOf(crypto, p));
      }
      OneMore(mds, crypto, metadata.encryptionKey, portions, p);
      KeyedMore(crypto, metadata.encryptionKey, sent, mds, chunk, MetadataOf(crypto, p));
      metadata := metadata.(chunks := metadata.chunks + [ChunkMetadata(hash, d.nonce)]);
      sent, portions := sent + [chunk], portions + [p];
      r := Ok(Some(chunk));
    }

    // FileUploader::get_metadata: what it returns decodes the chunks handed out
    // to the whole file; it refuses while bytes are unread.
    method GetMetadata() returns (r: ShardResult<FileMetadata>)
      requires Valid()
      ensures r.Err? <==> position < |file|
      ensures r.Err? ==> r.error == MetadataNotFilled
      ensures r.Ok? ==> r.value.name == metadata.name && r.value.encryptionKey == metadata.encryptionKey
      ensures r.Ok? && !refused ==> Holds(crypto, r.value.encryptionKey, sent, r.value.chunks, file)
      ensures r.Ok? ==> r.value == metadata
    {
      assert file[..|file|] == file;
      r := if position == |file| then Ok(metadata) else Err(MetadataNotFilled);
    }
  }

  // ----- the portions of a file -----

  // Padding and size make the plaintext; a full portion needs no padding.
  lemma PaddedData(p: Portion, padded: Bytes)
    requires Sized(p) && padded == if |p.data| < PADDED_SIZE_B then p.data + p.padding else p.data
    ensures padded == p.data + p.padding
    ensures padded + LeBytes(|p.data|, U32_SIZE_B) == Plaintext(p.data, p.padding)
  {
  }

  // The chunk of an encrypted portion decodes to its data.
  lemma ChunkOfPortion(c: Crypto, key: Bytes, p: Portion, chunk: Chunk)
    requires Inverse(c) && Encrypts(c, key, p) && chunk.hash == c.hash(p.data + p.padding)
    requires c.encrypt(Plaintext(p.data, p.padding), key, p.nonce) == Some(chunk.data)
    ensures |chunk.data| == ENCRYPTED_CHUNK_SIZE_B && Decodes(c, key, chunk, MetadataOf(c, p), p.data)
    ensures Keyed(c, key, chunk, MetadataOf(c, p)) && Laid(c, key, chunk, p.nonce, p.data, p.padding)
  {
    UnpaddedPlaintext(p.data, p.padding);
    SizeAtTheEnd(p.data, p.padding);
  }

  lemma SizeAtTheEnd(data: Bytes, padding: Bytes)
    requires |data| + |padding| == PADDED_SIZE_B
    ensures Plaintext(data, padding)[..PADDED_SIZE_B] == data + padding
    ensures LeValue(Plaintext(data, padding)[PADDED_SIZE_B..]) == |data|
  {
    Pow256Values();
    LeValueOfBytes(|data|, U32_SIZE_B);
    assert Plaintext(data, padding)[PADDED_SIZE_B..] == LeBytes(|data|, U32_SIZE_B);
  }

  lemma HoldsNext(c: Crypto, key: Bytes, chunks: seq<Chunk>, mds: seq<ChunkMetadata>, file: Bytes, start: nat, end: nat,
                  chunk: Chunk, md: ChunkMetadata)
    requires start <= end <= |file| && Holds(c, key, chunks, mds, file[..start])
    requires Decodes(c, key, chunk, md, file[start..end])
    ensures Holds(c, key, chunks + [chunk], mds + [md], file[..end])
  {
    HoldsMore(c, key, chunks, mds, file[..start], chunk, md);
    assert file[..start] + file[start..end] == file[..end];
  }

  // The data of a chunk, its padding and its nonce.
  datatype Portion = Portion(data: Bytes, padding: Bytes, nonce: Bytes)

  ghost function PortionAt(file: Bytes, at: nat, d: Draw): Portion
    requires at <= |file| && Fair(d, |file| - at)
  {
    Portion(file[at..at + d.got], d.padding, d.nonce)
  }

  predicate Sized(p: Portion) {
    |p.data| + |p.padding| == PADDED_SIZE_B
  }

  predicate Encrypts(c: Crypto, key: Bytes, p: Portion) {
    Sized(p) && c.encrypt(Plaintext(p.data, p.padding), key, p.nonce).Some?
  }

  // The hash is that of the padded data.
  function MetadataOf(c: Crypto, p: Portion): ChunkMetadata {
    ChunkMetadata(c.hash(p.data + p.padding), p.nonce)
  }

  // A read of the file at each step, of at least one byte.
  ghost predicate FairEnv(env: (nat, nat) -> Draw) {
    forall step, remaining :: Fair(env(step, remaining), remaining)
  }

  // How the reads cut the file from a position on.
  ghost function PortionsFrom(file: Bytes, at: nat, step: nat, env: (nat, nat) -> Draw): seq<Portion>
    requires FairEnv(env) && at <= |file|
    decreases |file| - at
  {
    var d := env(step, |file| - at);
    assert Fair(d, |file| - at);
    if at == |file| then []
    else [PortionAt(file, at, d)] + PortionsFrom(file, at + d.got, step + 1, env)
  }

  ghost function Portions(file: Bytes, env: (nat, nat) -> Draw): seq<Portion>
    requires FairEnv(env)
  {
    PortionsFrom(file, 0, 0, env)
  }

  // Portion i lies between these positions.
  ghost predicate Cut(p: Portion, from: nat, to: nat, file: Bytes, step: nat, env: (nat, nat) -> Draw) {
    && from < to <= |file|
    && var d := env(step, |file| - from);
       to == from + d.got && Fair(d, |file| - from) && p == PortionAt(file, from, d)
  }

  // The portions lie between these positions, the last of which is the end.
  ghost predicate CutAt(ps: seq<Portion>, cuts: seq<nat>, file: Bytes, step: nat, env: (nat, nat) -> Draw) {
    && |cuts| == |ps| + 1 && cuts[|ps|] == |file|
    && forall i | 0 <= i < |ps| :: Cut(ps[i], cuts[i], cuts[i + 1], file, step + i, env)
  }

  lemma {:induction false} Cuts(file: Bytes, at: nat, step: nat, env: (nat, nat) -> Draw) returns (cuts: seq<nat>)
    requires FairEnv(env) && at <= |file|
    ensures CutAt(PortionsFrom(file, at, step, env), cuts, file, step, env) && cuts[0] == at
    decreases |file| - at
  {
    cuts := [at];
    if at < |file| {
      var d := env(step, |file| - at);
      assert Fair(d, |file| - at);
      var rest := Cuts(file, at + d.got, step + 1, env);
      cuts := cuts + rest;
      CutMore(PortionsFrom(file, at + d.got, step + 1, env), rest, file, PortionAt(file, at, d), at, step, env);
    }
  }

  lemma CutMore(ps: seq<Portion>, cuts: seq<nat>, file: Bytes, p: Portion, at: nat, step: nat,
                env: (nat, nat) -> Draw)
    requires CutAt(ps, cuts, file, step + 1, env) && Cut(p, at, cuts[0], file, step, env)
    ensures CutAt([p] + ps, [at] + cuts, file, step, env)
  {
    var qs, all := [p] + ps, [at] + cuts;
    forall i | 0 < i < |qs|
      ensures Cut(qs[i], all[i], all[i + 1], file, step + i, env)
    {
      assert Cut(ps[i - 1], cuts[i - 1], cuts[i - 1 + 1], file, step + 1 + (i - 1), env);
    }
  }

  ghost predicate AllEncrypt(c: Crypto, key: Bytes, ps: seq<Portion>) {
    forall i | 0 <= i < |ps| :: Encrypts(c, key, ps[i])
  }

  // The metadata of portions: one entry for each, in order.
  ghost predicate Describes(mds: seq<ChunkMetadata>, c: Crypto, ps: seq<Portion>) {
    && |mds| == |ps|
    && forall i | 0 <= i < |mds| :: mds[i].hash == c.hash(ps[i].data + ps[i].padding) && mds[i].nonce == ps[i].nonce
  }

  lemma OneMore(mds: seq<ChunkMetadata>, c: Crypto, key: Bytes, ps: seq<Portion>, p: Portion)
    requires Describes(mds, c, ps) && AllEncrypt(c, key, ps) && Encrypts(c, key, p)
    ensures Describes(mds + [MetadataOf(c, p)], c, ps + [p]) && AllEncrypt(c, key, ps + [p])
  {
  }

  lemma AllSized(file: Bytes, env: (nat, nat) -> Draw)
    requires FairEnv(env)
    ensures forall i | 0 <= i < |Portions(file, env)| :: Sized(Portions(file, env)[i])
  {
    var ps := Portions(file, env);
    var cuts := Cuts(file, 0, 0, env);
    forall i | 0 <= i < |ps|
      ensures Sized(ps[i])
    {
      assert Cut(ps[i], cuts[i], cuts[i + 1], file, 0 + i, env);
    }
  }

  // The upload loop: it ends well exactly if the cipher takes every portion.
  method UploadChunks(uploader: FileUploader, env: (nat, nat) -> Draw) returns (r: ShardResult<()>, chunks: seq<Chunk>)
    requires uploader.Valid() && Inverse(uploader.crypto) && FairEnv(env)
    requires uploader.position == 0 && uploader.sent == [] && uploader.portions == [] && !uploader.refused
    modifies uploader
    ensures uploader.Valid() && uploader.sent == chunks && uploader.refused == r.Err?
    ensures uploader.metadata == old(uploader.metadata).(chunks := uploader.metadata.chunks)
    ensures r.Ok? <==>
              AllEncrypt(uploader.crypto, old(uploader.metadata).encryptionKey, Portions(uploader.file, env))
    ensures r.Err? ==> r.error == EncryptionError
    ensures r.Ok? ==> uploader.position == |uploader.file| && uploader.portions == Portions(uploader.file, env)
  {
    ghost var all := Portions(uploader.file, env);
    ghost var cuts := Cuts(uploader.file, 0, 0, env);
    chunks := [];
    while true
      invariant uploader.Valid() && uploader.sent == chunks && !uploader.refused
      invariant uploader.metadata == old(uploader.metadata).(chunks := uploader.metadata.chunks)
      invariant |chunks| <= |all| && uploader.portions == all[..|chunks|] && uploader.position == cuts[|chunks|]
      decreases |uploader.file| - uploader.position
    {
      var d := env(|chunks|, |uploader.file| - uploader.position);
      assert Fair(d, |uploader.file| - uploader.position);
      PortionNext(|chunks|, all, cuts, uploader.file, env, d);
      var next := uploader.GetNextChunkEncrypt(d);
      if next.Err? {
        PortionRefused(|chunks|, uploader.crypto, uploader.metadata.encryptionKey, all);
        return Err(next.error), chunks;
      }
      if next.value.None? {
        break;
      }
      chunks := chunks + [next.value.value];
    }
    r := Ok(());
  }

  // The next portion is the one a read gives; there is none at the end.
  lemma PortionNext(n: nat, all: seq<Portion>, cuts: seq<nat>, file: Bytes, env: (nat, nat) -> Draw, d: Draw)
    requires CutAt(all, cuts, file, 0, env) && n <= |all| && cuts[n] <= |file|
    requires d == env(n, |file| - cuts[n]) && Fair(d, |file| - cuts[n])
    ensures cuts[n] < |file| ==>
              && n < |all| && cuts[n + 1] == cuts[n] + d.got
              && all[n] == PortionAt(file, cuts[n], d) && all[..n + 1] == all[..n] + [all[n]]
    ensures cuts[n] == |file| ==> all[..n] == all
  {
    if n < |all| {
      assert Cut(all[n], cuts[n], cuts[n + 1], file, 0 + n, env);
    }
  }

  lemma PortionRefused(n: nat, c: Crypto, key: Bytes, all: seq<Portion>)
    requires n < |all| && !Encrypts(c, key, all[n])
    ensures !AllEncrypt(c, key, all)
  {
  }

  // Uploading, for every schedule of short reads, paddings and nonces. It
  // succeeds exactly if the file is not too big and the cipher takes every
  // portion; then the chunks make up the file.
  method UploadFile(name: string, file: Bytes, key: Bytes, crypto: Crypto, env: (nat, nat) -> Draw)
    returns (r: ShardResult<FileMetadata>, chunks: seq<Chunk>)
    requires Inverse(crypto) && FairEnv(env)
    ensures r == Err(FileTooBig) <==> |file| > MAX_FILE_SIZE_B
    ensures r.Ok? <==> |file| <= MAX_FILE_SIZE_B && AllEncrypt(crypto, key, Portions(file, env))
    ensures r.Err? ==> r.error == FileTooBig || r.error == EncryptionError
    ensures r.Ok? ==> r.value.name == name && r.value.encryptionKey == key
    ensures r.Ok? ==> Describes(r.value.chunks, crypto, Portions(file, env))
    ensures r.Ok? ==> Holds(crypto, key, chunks, r.value.chunks, file)
    ensures r.Ok? ==> forall i | 0 <= i < |chunks| :: |chunks[i].data| == ENCRYPTED_CHUNK_SIZE_B
    ensures r.Ok? ==> AllKeyed(crypto, key, chunks, r.value.chunks)
  {
    chunks := [];
    if |file| > MAX_FILE_SIZE_B {
      return Err(FileTooBig), [];
    }
    var uploader := new FileUploader(name, file, key, crypto);
    var sent;
    sent, chunks := UploadChunks(uploader, env);
    if sent.Err? {
      return Err(sent.error), chunks;
    }
    r := uploader.GetMetadata();
  }

  // ----- downloading -----

  class FileDownloader {
    const metadata: FileMetadata
    const crypto: Crypto
    var chunkIndex: nat
    var written: Bytes

    constructor (metadata: FileMetadata, crypto: Crypto)
      ensures this.metadata == metadata && this.crypto == crypto && chunkIndex == 0 && written == []
    {
      this.metadata, this.crypto, chunkIndex, written := metadata, crypto, 0, [];
    }

    // FileDownloader::store_next_chunk_decrypt
    method StoreNextChunkDecrypt(chunk: Chunk) returns (r: ShardResult<()>)
      modifies this
      ensures r.Err? ==> chunkIndex == old(chunkIndex) && written == old(written)
      ensures r.Ok? <==>
                && old(chunkIndex) < |metadata.chunks|
                && Accepts(crypto, metadata.encryptionKey, chunk, metadata.chunks[old(chunkIndex)])
      ensures r.Ok? ==> chunkIndex == old(chunkIndex) + 1
      ensures r.Ok? ==>
                written == old(written) + Piece(crypto, metadata.encryptionKey, chunk, metadata.chunks[old(chunkIndex)])
      ensures r == Err(EmptyChunk) <==> chunk.data == []
      ensures r == Err(UnwantedChunk) <==> chunk.data != [] && old(chunkIndex) >= |metadata.chunks|
      ensures r == Err(ChunkHashMismatch) ==>
                old(chunkIndex) < |metadata.chunks| && chunk.hash != metadata.chunks[old(chunkIndex)].hash
      // what the cipher says comes before the hash, and the size counts up to the padded data
      ensures chunk.data != [] && old(chunkIndex) < |metadata.chunks| ==>
                var md := metadata.chunks[old(chunkIndex)];
                var plain := crypto.decrypt(chunk.data, metadata.encryptionKey, md.nonce);
                && (r == Err(EncryptionError) <==> plain.None?)
                && (r == Err(Panic) <==> plain.Some? && |plain.value| < PADDED_SIZE_B + U32_SIZE_B)
                && (r.Ok? ==>
                      var size := LeValue(plain.value[PADDED_SIZE_B..PADDED_SIZE_B + U32_SIZE_B]);
                      && |written| == |old(written)| + (if size < PADDED_SIZE_B then size else PADDED_SIZE_B)
                      && written[|old(written)|..] <= plain.value)
    {
      if |chunk.data| == 0 {
        return Err(EmptyChunk);
      }
      if chunkIndex >= |metadata.chunks| {
        return Err(UnwantedChunk);
      }
      var md := metadata.chunks[chunkIndex];
      var decrypted := crypto.decrypt(chunk.data, metadata.encryptionKey, md.nonce);
      if decrypted.None? {
        return Err(EncryptionError);
      }
      var bytes := decrypted.value;
      // a shorter plaintext makes the slice expression panic
      if |bytes| < PADDED_SIZE_B + U32_SIZE_B {
        return Err(Panic);
      }
      var size := LeValue(bytes[PADDED_SIZE_B..PADDED_SIZE_B + U32_SIZE_B]);
      bytes := bytes[..PADDED_SIZE_B];
      if chunk.hash != md.hash {
        return Err(ChunkHashMismatch);
      }
      if |bytes| != size {
        bytes := if size < |bytes| then bytes[..size] else bytes;
      }
      written := written + bytes;
      chunkIndex := chunkIndex + 1;
      r := Ok(());
    }
  }

  // Feeding chunks to a downloader, one per metadata entry: it succeeds exactly
  // when every chunk is accepted, and then writes the file they make up.
  method DownloadChunks(md: FileMetadata, chunks: seq<Chunk>, crypto: Crypto) returns (r: ShardResult<Bytes>)
    requires |chunks| == |md.chunks|
    ensures r.Ok? <==> AllAccepted(crypto, md.encryptionKey, chunks, md.chunks)
    ensures r.Ok? ==> Holds(crypto, md.encryptionKey, chunks, md.chunks, r.value)
    ensures r.Err? && (forall i | 0 <= i < |chunks| :: chunks[i].hash == md.chunks[i].hash) ==>
              r.error != UnwantedChunk && r.error != ChunkHashMismatch
  {
    var downloader := new FileDownloader(md, crypto);
    ghost var key := md.encryptionKey;
    for i := 0 to |chunks|
      invariant downloader.metadata == md && downloader.crypto == crypto && downloader.chunkIndex == i
      invariant AllAccepted(crypto, key, chunks[..i], md.chunks[..i])
      invariant downloader.written == Assembled(crypto, key, chunks[..i], md.chunks[..i], i)
    {
      var stored := downloader.StoreNextChunkDecrypt(chunks[i]);
      if stored.Err? {
        return Err(stored.error);
      }
      assert chunks[..i + 1] == chunks[..i] + [chunks[i]] && md.chunks[..i + 1] == md.chunks[..i] + [md.chunks[i]];
      HoldsMore(crypto, key, chunks[..i], md.chunks[..i], Assembled(crypto, key, chunks[..i], md.chunks[..i], i),
                chunks[i], md.chunks[i]);
    }
    assert chunks[..|chunks|] == chunks && md.chunks[..|chunks|] == md.chunks;
    r := Ok(downloader.written);
  }

  // The round trip, for every file and every schedule of short reads, paddings
  // and nonces: what comes back is the file, byte for byte, unless it is too big
  // or the cipher refuses a portion.
  method RoundTrip(name: string, file: Bytes, key: Bytes, crypto: Crypto, env: (nat, nat) -> Draw)
    returns (r: ShardResult<Bytes>, chunks: seq<Chunk>)
    requires Inverse(crypto) && FairEnv(env)
    ensures r == Err(FileTooBig) <==> |file| > MAX_FILE_SIZE_B
    ensures r == Err(EncryptionError) <==>
              |file| <= MAX_FILE_SIZE_B && !AllEncrypt(crypto, key, Portions(file, env))
    ensures r.Ok? <==> |file| <= MAX_FILE_SIZE_B && AllEncrypt(crypto, key, Portions(file, env))
    ensures |file| <= MAX_FILE_SIZE_B && (forall p, n :: crypto.encrypt(p, key, n).Some?) ==> r.Ok?
    ensures r.Ok? ==> r.value == file && forall i | 0 <= i < |chunks| :: |chunks[i].data| == ENCRYPTED_CHUNK_SIZE_B
  {
    AllSized(file, env);
    var md;
    md, chunks := UploadFile(name, file, key, crypto, env);
    if md.Err? {
      return Err(md.error), chunks;
    }
    r := DownloadChunks(md.value, chunks, crypto);
  }
}
