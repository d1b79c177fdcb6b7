// Downloading a file: resolving storers in batches, fetching, reassembling.
module Download {
  import opened Keys
  import opened Contacts
  import opened Closest
  import opened Common
  import opened LittleEndian
  import opened Lookup
  import opened Sharding

  datatype DownloadError = StorerNotFound | FetchFailed | ShardError(error: Error)
  datatype Download = Done(file: Bytes) | Failed(error: DownloadError)

  // Node::find_storers_parallel. find(i) is how the search for the i-th key
  // ends. The pairs come back in order, one for each requested key, for every
  // length of the list; one failed search fails them all.
  method FindStorersParallel(keys: seq<Key>, find: nat -> Option<NodeInfo>) returns (r: Option<seq<(Key, NodeInfo)>>)
    ensures r.Some? <==> forall i | 0 <= i < |keys| :: find(i).Some?
    ensures r.Some? ==> |r.value| == |keys| && forall i | 0 <= i < |keys| :: r.value[i] == (keys[i], find(i).value)
  {
    var resolved: seq<(Key, NodeInfo)> := [];
    var start := 0;
    while start < |keys|
      invariant 0 <= start <= |keys| && |resolved| == start
      invariant forall i | 0 <= i < start :: find(i).Some? && resolved[i] == (keys[i], find(i).value)
    {
      // one batch of at most ALPHA keys, searched concurrently
      var end := Min(start + ALPHA, |keys|);
      var results := seq(end - start, i requires 0 <= i < end - start => find(start + i));
      for j := 0 to |results|
        invariant |resolved| == start + j
        invariant forall i | 0 <= i < start + j :: find(i).Some? && resolved[i] == (keys[i], find(i).value)
      {
        if results[j].None? {
          assert find(start + j).None?;
          return None;
        }
        resolved := resolved + [(keys[start + j], results[j].value)];
      }
      start := end;
    }
    return Some(resolved);
  }

  // The i-th chunk is found, and this is what its storer sends.
  ghost predicate Sent(md: FileMetadata, find: nat -> Option<NodeInfo>, fetch: (Key, NodeInfo) -> Option<Bytes>,
                       i: nat, chunk: Chunk)
    requires i < |md.chunks|
  {
    find(i).Some? && chunk.hash == md.chunks[i].hash && fetch(chunk.hash, find(i).value) == Some(chunk.data)
  }

  ghost predicate AllSent(md: FileMetadata, find: nat -> Option<NodeInfo>, fetch: (Key, NodeInfo) -> Option<Bytes>,
                          chunks: seq<Chunk>) {
    |chunks| <= |md.chunks| && forall i | 0 <= i < |chunks| :: Sent(md, find, fetch, i, chunks[i])
  }

  // Node::download_file. It succeeds exactly when every chunk is found, fetched
  // and accepted, and then the chunks make up the result; it never meets an
  // unwanted or a mismatched chunk.
  method DownloadFile(md: FileMetadata, find: nat -> Option<NodeInfo>, fetch: (Key, NodeInfo) -> Option<Bytes>,
                      crypto: Crypto)
    returns (r: Download, ghost chunks: seq<Chunk>)
    ensures r.Done? ==> AllSent(md, find, fetch, chunks) && Holds(crypto, md.encryptionKey, chunks, md.chunks, r.file)
    ensures r.Failed? ==>
              forall cs | AllSent(md, find, fetch, cs) :: !AllAccepted(crypto, md.encryptionKey, cs, md.chunks)
    ensures r != Failed(ShardError(UnwantedChunk)) && r != Failed(ShardError(ChunkHashMismatch))
    ensures r == Failed(StorerNotFound) <==> exists i | 0 <= i < |md.chunks| :: find(i).None?
    ensures r == Failed(FetchFailed) ==>
              exists i | 0 <= i < |md.chunks| :: find(i).Some? && fetch(md.chunks[i].hash, find(i).value).None?
    ensures CommitsToNonce(crypto) && (exists i, j :: Twins(md, find, i, j)) ==> r.Failed?
  {
    var keys := seq(|md.chunks|, i requires 0 <= i < |md.chunks| => md.chunks[i].hash);
    chunks := [];
    var pairs := FindStorersParallel(keys, find);
    if pairs.None? {
      MissingSender(md, find, fetch, crypto);
      return Failed(StorerNotFound), chunks;
    }
    var downloader := new FileDownloader(md, crypto);
    for i := 0 to |pairs.value|
      invariant Progress(downloader, md, find, fetch, crypto, chunks, i)
    {
      var (id, storer) := pairs.value[i];
      var data := fetch(id, storer);
      if data.None? {
        NotSent(md, find, fetch, crypto, i);
        return Failed(FetchFailed), chunks;
      }
      var chunk := Chunk(data.value, id);
      ghost var before := downloader.written;
      var stored := downloader.StoreNextChunkDecrypt(chunk);
      if stored.Err? {
        NotAccepted(md, find, fetch, crypto, i, chunk);
        return Failed(ShardError(stored.error)), chunks;
      }
      HoldsMore(crypto, md.encryptionKey, chunks, md.chunks[..i], before, chunk, md.chunks[i]);
      assert md.chunks[..i + 1] == md.chunks[..i] + [md.chunks[i]];
      chunks := chunks + [chunk];
    }
    assert md.chunks[..|md.chunks|] == md.chunks;
    if CommitsToNonce(crypto) && exists i, j :: Twins(md, find, i, j) {
      ghost var i, j :| Twins(md, find, i, j);
      TwinsNotAccepted(md, find, fetch, crypto, i, j, chunks);
    }
    r := Done(downloader.written);
  }

  // After i chunks: they were sent, and make up what is written.
  ghost predicate Progress(d: FileDownloader, md: FileMetadata, find: nat -> Option<NodeInfo>,
                           fetch: (Key, NodeInfo) -> Option<Bytes>,
                           crypto: Crypto, chunks: seq<Chunk>, i: nat)
    reads d
  {
    && d.metadata == md && d.crypto == crypto && d.chunkIndex == i == |chunks| && i <= |md.chunks|
    && AllSent(md, find, fetch, chunks)
    && Holds(crypto, md.encryptionKey, chunks, md.chunks[..i], d.written)
  }

  lemma MissingSender(md: FileMetadata, find: nat -> Option<NodeInfo>, fetch: (Key, NodeInfo) -> Option<Bytes>,
                      crypto: Crypto)
    requires exists i | 0 <= i < |md.chunks| :: find(i).None?
    ensures forall cs | AllSent(md, find, fetch, cs) :: !AllAccepted(crypto, md.encryptionKey, cs, md.chunks)
  {
    var i :| 0 <= i < |md.chunks| && find(i).None?;
    NotSent(md, find, fetch, crypto, i);
  }

  lemma NotSent(md: FileMetadata, find: nat -> Option<NodeInfo>, fetch: (Key, NodeInfo) -> Option<Bytes>,
                crypto: Crypto, i: nat)
    requires i < |md.chunks| && (find(i).None? || fetch(md.chunks[i].hash, find(i).value).None?)
    ensures forall cs | AllSent(md, find, fetch, cs) :: !AllAccepted(crypto, md.encryptionKey, cs, md.chunks)
  {
    forall cs | AllSent(md, find, fetch, cs)
      ensures |cs| != |md.chunks|
    {
      assert i < |cs| ==> Sent(md, find, fetch, i, cs[i]);
    }
  }

  lemma NotAccepted(md: FileMetadata, find: nat -> Option<NodeInfo>, fetch: (Key, NodeInfo) -> Option<Bytes>,
                    crypto: Crypto, i: nat, chunk: Chunk)
    requires i < |md.chunks| && Sent(md, find, fetch, i, chunk)
    requires !Accepts(crypto, md.encryptionKey, chunk, md.chunks[i])
    ensures forall cs | AllSent(md, find, fetch, cs) :: !AllAccepted(crypto, md.encryptionKey, cs, md.chunks)
  {
  }

  // ----- equal chunks in one file -----

  // No ciphertext decrypts under two nonces.
  ghost predicate CommitsToNonce(c: Crypto) {
    forall data, key, m, n | c.decrypt(data, key, m).Some? && c.decrypt(data, key, n).Some? :: m == n
  }

  // Two chunks share their hash but not their nonce, and one storer is found
  // for both.
  ghost predicate Twins(md: FileMetadata, find: nat -> Option<NodeInfo>, i: nat, j: nat) {
    && i < j < |md.chunks| && md.chunks[i].hash == md.chunks[j].hash && md.chunks[i].nonce != md.chunks[j].nonce
    && find(i) == find(j)
  }

  // A storer asked twice for one key sends one ciphertext, which one nonce opens;
  // so no download with twins succeeds, whatever the storers keep.
  lemma TwinsNotAccepted(md: FileMetadata, find: nat -> Option<NodeInfo>, fetch: (Key, NodeInfo) -> Option<Bytes>,
                         crypto: Crypto, i: nat, j: nat, cs: seq<Chunk>)
    requires CommitsToNonce(crypto) && Twins(md, find, i, j) && AllSent(md, find, fetch, cs) && |cs| == |md.chunks|
    ensures !Accepts(crypto, md.encryptionKey, cs[i], md.chunks[i])
         || !Accepts(crypto, md.encryptionKey, cs[j], md.chunks[j])
  {
    assert Sent(md, find, fetch, i, cs[i]) && Sent(md, find, fetch, j, cs[j]);
    assert cs[i] == cs[j];
  }

  // ----- when a shared file comes back -----

  // Finding a storer by key, and fetching from it.
  datatype Storers = Storers(locate: Key -> Option<NodeInfo>, fetch: (Key, NodeInfo) -> Option<Bytes>)

  // For each uploaded chunk a storer is found, and it sends an uploaded chunk
  // with that hash.
  ghost predicate Serves(storers: Storers, chunks: seq<Chunk>) {
    forall c | c in chunks :: exists m | m in chunks :: SentFor(storers, c.hash, m)
  }

  ghost predicate SentFor(storers: Storers, hash: Key, m: Chunk) {
    && m.hash == hash && storers.locate(hash).Some?
    && storers.fetch(hash, storers.locate(hash).value) == Some(m.data)
  }

  ghost predicate DistinctHashes(mds: seq<ChunkMetadata>) {
    forall i, j | 0 <= i < j < |mds| :: mds[i].hash != mds[j].hash
  }

  ghost predicate DistinctNonces(mds: seq<ChunkMetadata>) {
    forall i, j | 0 <= i < j < |mds| :: mds[i].nonce != mds[j].nonce
  }

  function FindBy(md: FileMetadata, locate: Key -> Option<NodeInfo>): nat -> Option<NodeInfo> {
    (i: nat) => if i < |md.chunks| then locate(md.chunks[i].hash) else None
  }

  // Where hashes are distinct, the i-th request brings back the i-th chunk.
  lemma ChunkComesBack(md: FileMetadata, chunks: seq<Chunk>, storers: Storers, i: nat)
    requires |chunks| == |md.chunks| && (forall k | 0 <= k < |chunks| :: chunks[k].hash == md.chunks[k].hash)
    requires Serves(storers, chunks) && DistinctHashes(md.chunks) && i < |chunks|
    ensures Sent(md, FindBy(md, storers.locate), storers.fetch, i, chunks[i])
  {
    assert chunks[i] in chunks;
    var m :| m in chunks && SentFor(storers, chunks[i].hash, m);
    HashIsUnique(md.chunks, chunks, i, m);
    assert FindBy(md, storers.locate)(i) == storers.locate(chunks[i].hash);
  }

  lemma HashIsUnique(mds: seq<ChunkMetadata>, chunks: seq<Chunk>, i: nat, m: Chunk)
    requires |chunks| == |mds| && (forall k | 0 <= k < |chunks| :: chunks[k].hash == mds[k].hash)
    requires DistinctHashes(mds) && i < |chunks| && m in chunks && m.hash == chunks[i].hash
    ensures m == chunks[i]
  {
    var j :| 0 <= j < |chunks| && chunks[j] == m;
    assert mds[j].hash == mds[i].hash;
  }

  lemma HashesMatch(crypto: Crypto, key: Bytes, chunks: seq<Chunk>, mds: seq<ChunkMetadata>)
    requires AllAccepted(crypto, key, chunks, mds)
    ensures forall k | 0 <= k < |chunks| :: chunks[k].hash == mds[k].hash
  {
    assert forall k | 0 <= k < |chunks| :: Accepts(crypto, key, chunks[k], mds[k]) ==> chunks[k].hash == mds[k].hash;
  }

  // What is sent is determined.
  lemma SentOnce(md: FileMetadata, find: nat -> Option<NodeInfo>, fetch: (Key, NodeInfo) -> Option<Bytes>,
                 a: seq<Chunk>, b: seq<Chunk>)
    requires AllSent(md, find, fetch, a) && AllSent(md, find, fetch, b) && |a| == |b|
    ensures a == b
  {
    forall i | 0 <= i < |a|
      ensures a[i] == b[i]
    {
      assert Sent(md, find, fetch, i, a[i]) && Sent(md, find, fetch, i, b[i]);
    }
  }

  lemma AllComeBack(md: FileMetadata, chunks: seq<Chunk>, storers: Storers, crypto: Crypto)
    requires AllAccepted(crypto, md.encryptionKey, chunks, md.chunks)
    requires Serves(storers, chunks) && DistinctHashes(md.chunks)
    ensures AllSent(md, FindBy(md, storers.locate), storers.fetch, chunks)
  {
    HashesMatch(crypto, md.encryptionKey, chunks, md.chunks);
    forall i | 0 <= i < |chunks|
      ensures Sent(md, FindBy(md, storers.locate), storers.fetch, i, chunks[i])
    {
      ChunkComesBack(md, chunks, storers, i);
    }
  }

  lemma SharedHashIsTwin(md: FileMetadata, locate: Key -> Option<NodeInfo>)
    requires DistinctNonces(md.chunks) && !DistinctHashes(md.chunks)
    ensures exists i, j :: Twins(md, FindBy(md, locate), i, j)
  {
    var i, j :| 0 <= i < j < |md.chunks| && md.chunks[i].hash == md.chunks[j].hash;
    assert Twins(md, FindBy(md, locate), i, j);
  }

  // Downloading what was shared: the file comes back if and only if no two of
  // its chunks share a hash.
  method DownloadShared(md: FileMetadata, ghost chunks: seq<Chunk>, ghost file: Bytes, storers: Storers, crypto: Crypto)
    returns (r: Download)
    requires Holds(crypto, md.encryptionKey, chunks, md.chunks, file) && Serves(storers, chunks)
    requires CommitsToNonce(crypto) && DistinctNonces(md.chunks)
    ensures DistinctHashes(md.chunks) ==> r == Done(file)
    ensures !DistinctHashes(md.chunks) ==> r.Failed?
  {
    ghost var find := FindBy(md, storers.locate);
    if DistinctHashes(md.chunks) {
      AllComeBack(md, chunks, storers, crypto);
    } else {
      SharedHashIsTwin(md, storers.locate);
    }
    ghost var cs;
    r, cs := DownloadFile(md, FindBy(md, storers.locate), storers.fetch, crypto);
    if DistinctHashes(md.chunks) {
      assert AllSent(md, find, storers.fetch, chunks) && AllAccepted(crypto, md.encryptionKey, chunks, md.chunks);
      SentOnce(md, find, storers.fetch, cs, chunks);
    }
  }

  // No two portions have the same hash.
  ghost predicate DistinctPortions(c: Crypto, ps: seq<Portion>) {
    forall i, j | 0 <= i < j < |ps| :: c.hash(ps[i].data + ps[i].padding) != c.hash(ps[j].data + ps[j].padding)
  }

  // The padded blocks differ, and the hash separates different blocks.
  ghost predicate TellsApart(c: Crypto, ps: seq<Portion>) {
    && (forall i, j | 0 <= i < j < |ps| :: ps[i].data + ps[i].padding != ps[j].data + ps[j].padding)
    && (forall a, b | IsBlock(a, ps) && IsBlock(b, ps) && c.hash(a) == c.hash(b) :: a == b)
  }

  ghost predicate IsBlock(a: Bytes, ps: seq<Portion>) {
    exists i | 0 <= i < |ps| :: a == ps[i].data + ps[i].padding
  }

  lemma ApartIsDistinct(c: Crypto, ps: seq<Portion>)
    requires TellsApart(c, ps)
    ensures DistinctPortions(c, ps)
  {
    forall i, j | 0 <= i < j < |ps|
      ensures c.hash(ps[i].data + ps[i].padding) != c.hash(ps[j].data + ps[j].padding)
    {
      assert IsBlock(ps[i].data + ps[i].padding, ps) && IsBlock(ps[j].data + ps[j].padding, ps);
    }
  }

  lemma PortionsDescribed(mds: seq<ChunkMetadata>, c: Crypto, ps: seq<Portion>)
    requires Describes(mds, c, ps) && forall i, j | 0 <= i < j < |ps| :: ps[i].nonce != ps[j].nonce
    ensures DistinctHashes(mds) <==> DistinctPortions(c, ps)
    ensures DistinctNonces(mds)
  {
    if !DistinctHashes(mds) {
      var i, j :| 0 <= i < j < |mds| && mds[i].hash == mds[j].hash;
      assert c.hash(ps[i].data + ps[i].padding) == c.hash(ps[j].data + ps[j].padding);
    }
    if !DistinctPortions(c, ps) {
      var i, j :| 0 <= i < j < |ps| && c.hash(ps[i].data + ps[i].padding) == c.hash(ps[j].data + ps[j].padding);
      assert mds[i].hash == mds[j].hash;
    }
  }

  // From end to end: a file that is not too big and that the cipher takes comes
  // back through the network, byte for byte, if and only if no two of its
  // portions have the same hash.
  method ShareFile(name: string, file: Bytes, key: Bytes, crypto: Crypto, env: (nat, nat) -> Draw,
                   share: seq<Chunk> -> Storers)
    returns (uploaded: ShardResult<FileMetadata>, r: Option<Download>)
    requires Inverse(crypto) && CommitsToNonce(crypto) && FairEnv(env) && forall cs :: Serves(share(cs), cs)
    requires var ps := Portions(file, env);
             forall i, j | 0 <= i < j < |ps| :: ps[i].nonce != ps[j].nonce
    ensures uploaded.Ok? <==> |file| <= MAX_FILE_SIZE_B && AllEncrypt(crypto, key, Portions(file, env))
    ensures uploaded.Ok? <==> r.Some?
    ensures r.Some? && DistinctPortions(crypto, Portions(file, env)) ==> r == Some(Done(file))
    ensures r.Some? && !DistinctPortions(crypto, Portions(file, env)) ==> r.value.Failed?
    // so it does if its padded blocks differ and the hash tells them apart
    ensures r.Some? && TellsApart(crypto, Portions(file, env)) ==> r == Some(Done(file))
  {
    var chunks;
    uploaded, chunks := UploadFile(name, file, key, crypto, env);
    if uploaded.Err? {
      return uploaded, None;
    }
    PortionsDescribed(uploaded.value.chunks, crypto, Portions(file, env));
    if TellsApart(crypto, Portions(file, env)) {
      ApartIsDistinct(crypto, Portions(file, env));
    }
    var d := DownloadShared(uploaded.value, chunks, file, share(chunks), crypto);
    r := Some(d);
  }

  // A file of two equal full blocks, read block by block.
  lemma TwoBlocks(block: Bytes, env: (nat, nat) -> Draw)
    requires |block| == PADDED_SIZE_B && FairEnv(env)
    requires env(0, 2 * PADDED_SIZE_B).got == env(1, PADDED_SIZE_B).got == PADDED_SIZE_B
    ensures Portions(block + block, env) ==
            [Portion(block, [], env(0, 2 * PADDED_SIZE_B).nonce), Portion(block, [], env(1, PADDED_SIZE_B).nonce)]
  {
    var file, n := block + block, PADDED_SIZE_B;
    assert Fair(env(0, 2 * n), 2 * n) && Fair(env(1, n), n);
    assert file[0..n] == block && file[n..2 * n] == block;
    var first, second := Portion(block, [], env(0, 2 * n).nonce), Portion(block, [], env(1, n).nonce);
    assert PortionsFrom(file, 2 * n, 2, env) == [];
    assert PortionsFrom(file, n, 1, env) == [second];
  }

  // Its portions share their hash, so it does not come back.
  lemma TwoBlocksCollide(block: Bytes, crypto: Crypto, env: (nat, nat) -> Draw)
    requires |block| == PADDED_SIZE_B && FairEnv(env)
    requires env(0, 2 * PADDED_SIZE_B).got == env(1, PADDED_SIZE_B).got == PADDED_SIZE_B
    ensures !DistinctPortions(crypto, Portions(block + block, env))
  {
    TwoBlocks(block, env);
    var ps := Portions(block + block, env);
    assert crypto.hash(ps[0].data + ps[0].padding) == crypto.hash(ps[1].data + ps[1].padding);
  }

  // Not even from storers that keep and send anything else.
  method ShareTwoBlocks(name: string, block: Bytes, key: Bytes, crypto: Crypto, env: (nat, nat) -> Draw,
                        find: nat -> Option<NodeInfo>, fetch: (Key, NodeInfo) -> Option<Bytes>)
    returns (uploaded: ShardResult<FileMetadata>, r: Option<Download>)
    requires Inverse(crypto) && CommitsToNonce(crypto) && FairEnv(env)
    requires |block| == PADDED_SIZE_B && env(0, 2 * PADDED_SIZE_B).got == env(1, PADDED_SIZE_B).got == PADDED_SIZE_B
    requires env(0, 2 * PADDED_SIZE_B).nonce != env(1, PADDED_SIZE_B).nonce && find(0) == find(1)
    ensures uploaded.Ok? <==> AllEncrypt(crypto, key, Portions(block + block, env))
    ensures uploaded.Ok? <==> r.Some?
    ensures r.Some? ==> r.value.Failed?
  {
    ghost var chunks;
    TwoBlocks(block, env);
    uploaded, chunks := UploadFile(name, block + block, key, crypto, env);
    if uploaded.Err? {
      return uploaded, None;
    }
    assert Twins(uploaded.value, find, 0, 1);
    ghost var cs;
    var d;
    d, cs := DownloadFile(uploaded.value, find, fetch, crypto);
    r := Some(d);
  }
}
