// The chunks a node keeps for others, and the transfers it has agreed to.
module ChunkStore {
  import opened Keys
  import opened Contacts
  import opened Closest
  import opened Common
  import opened LittleEndian
  import opened Sharding

  const MAX_SHARDS_STORED: nat := 1024
  const MAX_DATA_STORED_MB: nat := 4096
  const EXPIRE_TIME_S: nat := 86400

  type Port = nat

  datatype DataTransfer = DataTransfer(sender: NodeInfo, chunkHash: Key)

  datatype StoreError =
    | MaxShardsExceeded | InvalidChunkSize | StorageMemoryExceeded | ChunkAlreadyStored
    | DataTransferNotFound | ChunkNotFound | ChunkNotFoundInStorage

  type StoreResult<+T> = Result<T, StoreError>

  // The maps of the manager and its directory, as a value: storage times by
  // chunk hash, agreed transfers by port, and file contents by name.
  datatype Store = Store(owned: map<Key, nat>, transfers: map<Port, DataTransfer>, files: map<Key, Bytes>)

  // ----- the operations on values -----

  function Registered(s: Store, port: Port, t: DataTransfer): Store {
    s.(transfers := s.transfers[port := t])
  }

  // Whether the data on this port is taken, or why not.
  function Verdict(s: Store, data: Bytes, port: Port): StoreResult<Key> {
    if port !in s.transfers then Err(DataTransferNotFound)
    else if |s.owned| >= MAX_SHARDS_STORED then Err(MaxShardsExceeded)
    else if |data| > ENCRYPTED_CHUNK_SIZE_B then Err(InvalidChunkSize)
    else if s.transfers[port].chunkHash in s.files then Err(ChunkAlreadyStored)
    else Ok(s.transfers[port].chunkHash)
  }

  function Received(s: Store, data: Bytes, port: Port, now: nat): Store {
    var v := Verdict(s, data, port);
    if v.Err? then s
    else Store(s.owned[v.value := now], s.transfers - {port}, s.files[v.value := data])
  }

  ghost function Dead(s: Store, now: nat): set<Key> {
    set h | h in s.owned && now - s.owned[h] >= EXPIRE_TIME_S
  }

  ghost function Expired(s: Store, now: nat): Store {
    Store(s.owned - Dead(s, now), s.transfers, s.files - Dead(s, now))
  }

  function Touched(s: Store, hash: Key, now: nat): Store {
    if hash in s.owned then s.(owned := s.owned[hash := now]) else s
  }

  // Owned chunks are exactly the files; few and small enough.
  ghost predicate StoreOk(s: Store) {
    && s.owned.Keys == s.files.Keys
    && |s.owned| <= MAX_SHARDS_STORED
    && forall h | h in s.files :: |s.files[h]| <= ENCRYPTED_CHUNK_SIZE_B
  }

  lemma ReceivedOk(s: Store, data: Bytes, port: Port, now: nat)
    requires StoreOk(s)
    ensures StoreOk(Received(s, data, port, now))
  {
  }

  lemma ExpiredOk(s: Store, now: nat)
    requires StoreOk(s)
    ensures StoreOk(Expired(s, now))
  {
  }

  lemma TouchedOk(s: Store, hash: Key, now: nat)
    requires StoreOk(s)
    ensures StoreOk(Touched(s, hash, now))
  {
  }

  // ----- the bytes on disk -----

  ghost function TotalSize(files: map<Key, Bytes>, names: seq<Key>): nat
    requires Elems(names) <= files.Keys
  {
    if names == [] then 0
    else
      assert names[0] in Elems(names) && forall h | h in names[1..] :: h in Elems(names);
      |files[names[0]]| + TotalSize(files, names[1..])
  }

  lemma {:induction false} TotalBound(files: map<Key, Bytes>, names: seq<Key>)
    requires Elems(names) <= files.Keys
    requires forall h | h in files :: |files[h]| <= ENCRYPTED_CHUNK_SIZE_B
    ensures TotalSize(files, names) <= |names| * ENCRYPTED_CHUNK_SIZE_B
  {
    if names != [] {
      assert names[0] in Elems(names) && forall h | h in names[1..] :: h in Elems(names);
      TotalBound(files, names[1..]);
    }
  }

  // The files stay below the data limit, although nothing counts the bytes.
  lemma StoreFitsLimit(s: Store, names: seq<Key>)
    requires StoreOk(s) && NoDup(names) && Elems(names) == s.files.Keys
    ensures TotalSize(s.files, names) <= MAX_SHARDS_STORED * ENCRYPTED_CHUNK_SIZE_B < MAX_DATA_STORED_MB * 1024 * 1024
  {
    TotalBound(s.files, names);
    NoDupCardinality(names);
  }

  lemma MinusTwice<K, V>(m: map<K, V>, a: set<K>, b: set<K>)
    ensures m - a - b == m - (a + b)
  {
  }

  // ----- the manager -----

  class ShardStorageManager {
    var ownedChunks: map<Key, nat>
    var transfers: map<Port, DataTransfer>
    var totalStoredKb: nat
    // the directory
    var files: map<Key, Bytes>

    ghost function View(): Store
      reads this
    {
      Store(ownedChunks, transfers, files)
    }

    ghost predicate Valid()
      reads this
    {
      StoreOk(View()) && totalStoredKb == 0
    }

    constructor ()
      ensures Valid() && View() == Store(map[], map[], map[])
    {
      ownedChunks, transfers, totalStoredKb, files := map[], map[], 0, map[];
    }

    // ShardStorageManager::add_active_tcp_connection
    method AddActiveTcpConnection(port: Port, sender: NodeInfo, chunkHash: Key) returns (previous: Option<DataTransfer>)
      requires Valid()
      modifies this
      ensures Valid() && View() == Registered(old(View()), port, DataTransfer(sender, chunkHash))
      ensures previous == if port in old(transfers) then Some(old(transfers)[port]) else None
      // the agreed transfer is there under its port, and nothing else changed
      ensures transfers == old(transfers)[port := DataTransfer(sender, chunkHash)]
      ensures files == old(files) && ownedChunks == old(ownedChunks)
    {
      previous := if port in transfers then Some(transfers[port]) else None;
      transfers := transfers[port := DataTransfer(sender, chunkHash)];
    }

    // ShardStorageManager::store_chunk_for_known_peer
    method StoreChunkForKnownPeer(data: Bytes, port: Port, now: nat) returns (r: StoreResult<()>)
      requires Valid()
      modifies this
      ensures Valid() && View() == Received(old(View()), data, port, now)
      ensures r.Ok? <==> Verdict(old(View()), data, port).Ok?
      ensures r.Err? ==> Verdict(old(View()), data, port) == Err(r.error)
      ensures r != Err(StorageMemoryExceeded)
      // taken exactly if the transfer was agreed, there is room, and the chunk is small enough and new
      ensures r.Ok? <==>
                && port in old(transfers) && |old(ownedChunks)| < MAX_SHARDS_STORED
                && |data| <= ENCRYPTED_CHUNK_SIZE_B && old(transfers)[port].chunkHash !in old(files)
      // then it is on disk and owned since now, its transfer is used up, and nothing else changed
      ensures r.Ok? ==>
                var hash := old(transfers)[port].chunkHash;
                && files == old(files)[hash := data] && ownedChunks == old(ownedChunks)[hash := now]
                && port !in transfers && forall p | p != port ::
                     (p in transfers <==> p in old(transfers)) && (p in transfers ==> transfers[p] == old(transfers)[p])
      // otherwise nothing changed, and the first reason in this order is given
      ensures r.Err? ==> files == old(files) && ownedChunks == old(ownedChunks) && transfers == old(transfers)
      ensures r == Err(DataTransferNotFound) <==> port !in old(transfers)
      ensures r == Err(MaxShardsExceeded) <==> port in old(transfers) && |old(ownedChunks)| >= MAX_SHARDS_STORED
      ensures r == Err(InvalidChunkSize) <==>
                && port in old(transfers) && |old(ownedChunks)| < MAX_SHARDS_STORED
                && |data| > ENCRYPTED_CHUNK_SIZE_B
    {
      ReceivedOk(View(), data, port, now);
      if port !in transfers {
        return Err(DataTransferNotFound);
      }
      if |ownedChunks| >= MAX_SHARDS_STORED {
        return Err(MaxShardsExceeded);
      }
      if |data| > ENCRYPTED_CHUNK_SIZE_B {
        return Err(InvalidChunkSize);
      }
      // kilobytes against bytes; with no byte ever counted this never holds
      if MAX_DATA_STORED_MB * 1024 - totalStoredKb < |data| {
        return Err(StorageMemoryExceeded);
      }
      var chunkHash := transfers[port].chunkHash;
      if chunkHash in files {
        return Err(ChunkAlreadyStored);
      }
      transfers := transfers - {port};
      files := files[chunkHash := data];
      ownedChunks := ownedChunks[chunkHash := now];
      r := Ok(());
    }

    // ShardStorageManager::read_chunk
    method ReadChunk(hash: Key) returns (r: StoreResult<Bytes>)
      requires Valid()
      ensures r == if hash in ownedChunks then Ok(files[hash]) else Err(ChunkNotFound)
    {
      if hash !in files {
        return Err(ChunkNotFound);
      }
      r := Ok(files[hash]);
    }

    // ShardStorageManager::remove_dead_chunks; files go first, then the entries.
    method RemoveDeadChunks(now: nat)
      requires Valid()
      modifies this
      ensures Valid() && View() == Expired(old(View()), now)
      // a chunk stays if and only if it is younger than the expiry time, with its bytes and its age
      ensures forall h :: h in ownedChunks <==> h in old(ownedChunks) && now - old(ownedChunks)[h] < EXPIRE_TIME_S
      ensures forall h | h in ownedChunks :: ownedChunks[h] == old(ownedChunks)[h]
      ensures files.Keys == ownedChunks.Keys && forall h | h in files :: files[h] == old(files)[h]
      ensures transfers == old(transfers)
    {
      ExpiredOk(View(), now);
      var dead := set h | h in ownedChunks && now - ownedChunks[h] >= EXPIRE_TIME_S;
      DeleteFiles(dead);
      ownedChunks := ownedChunks - dead;
    }

    // The loop that deletes the files one by one.
    method DeleteFiles(names: set<Key>)
      modifies this`files
      ensures files == old(files) - names
    {
      var todo := names;
      while todo != {}
        invariant todo <= names && files == old(files) - (names - todo)
        decreases |todo|
      {
        var h :| h in todo;
        MinusTwice(old(files), names - todo, {h});
        assert names - (todo - {h}) == (names - todo) + {h};
        files := files - {h};
        todo := todo - {h};
      }
    }

    // ShardStorageManager::update_chunk_upload_time
    method UpdateChunkUploadTime(hash: Key, now: nat) returns (r: StoreResult<()>)
      requires Valid()
      modifies this
      ensures Valid() && View() == Touched(old(View()), hash, now)
      ensures r == if hash in old(ownedChunks) then Ok(()) else Err(ChunkNotFoundInStorage)
      ensures ownedChunks == if hash in old(ownedChunks) then old(ownedChunks)[hash := now] else old(ownedChunks)
      ensures files == old(files) && transfers == old(transfers)
    {
      TouchedOk(View(), hash, now);
      if hash !in ownedChunks {
        return Err(ChunkNotFoundInStorage);
      }
      ownedChunks := ownedChunks[hash := now];
      r := Ok(());
    }
  }

  // ----- whole runs -----

  datatype Event =
    | Register(port: Port, transfer: DataTransfer)
    | Receive(data: Bytes, rport: Port, now: nat)
    | Expire(at: nat)
    | Touch(hash: Key, when: nat)

  ghost function After(s: Store, e: Event): Store {
    match e
    case Register(port, t) => Registered(s, port, t)
    case Receive(data, port, now) => Received(s, data, port, now)
    case Expire(now) => Expired(s, now)
    case Touch(hash, now) => Touched(s, hash, now)
  }

  ghost function AfterAll(events: seq<Event>): Store {
    if events == [] then Store(map[], map[], map[])
    else After(AfterAll(events[..|events| - 1]), events[|events| - 1])
  }

  lemma {:induction false} RunKeepsStore(events: seq<Event>)
    ensures StoreOk(AfterAll(events))
  {
    if events != [] {
      var s, e := AfterAll(events[..|events| - 1]), events[|events| - 1];
      RunKeepsStore(events[..|events| - 1]);
      StepKeepsStore(s, e);
    }
  }

  lemma StepKeepsStore(s: Store, e: Event)
    requires StoreOk(s)
    ensures StoreOk(After(s, e))
  {
    match e
    case Register(_, _) =>
    case Receive(data, port, now) => ReceivedOk(s, data, port, now);
    case Expire(now) => ExpiredOk(s, now);
    case Touch(hash, now) => TouchedOk(s, hash, now);
  }

  // The store after more events, and whether a chunk is there all along.
  ghost function Later(s: Store, more: seq<Event>): Store
    decreases |more|
  {
    if more == [] then s else Later(After(s, more[0]), more[1..])
  }

  ghost predicate Throughout(s: Store, more: seq<Event>, hash: Key)
    decreases |more|
  {
    hash in s.files && (more == [] || Throughout(After(s, more[0]), more[1..], hash))
  }

  // A stored chunk reads back as it was stored: its bytes do not change as long
  // as it is there.
  lemma {:induction false} StoredBytesStay(s: Store, more: seq<Event>, hash: Key)
    requires Throughout(s, more, hash)
    ensures hash in Later(s, more).files && Later(s, more).files[hash] == s.files[hash]
    decreases |more|
  {
    if more != [] {
      var t := After(s, more[0]);
      assert t.files[hash] == s.files[hash];
      StoredBytesStay(t, more[1..], hash);
    }
  }

  // ----- an agreed transfer is honoured -----

  ghost predicate OnPort(e: Event, port: Port) {
    (e.Register? && e.port == port) || (e.Receive? && e.rport == port)
  }

  // An agreed transfer stays until its port is used again.
  lemma {:induction false} TransferStays(s: Store, more: seq<Event>, port: Port)
    requires port in s.transfers && forall e | e in more :: !OnPort(e, port)
    ensures port in Later(s, more).transfers && Later(s, more).transfers[port] == s.transfers[port]
    decreases |more|
  {
    if more != [] {
      assert more[0] in more && forall e | e in more[1..] :: e in more;
      assert !OnPort(more[0], port);
      TransferStays(After(s, more[0]), more[1..], port);
    }
  }

  // Whatever happens on other ports after a transfer was agreed: if there is
  // room then, a small enough chunk that is not there yet is stored as it came.
  lemma AgreedIsStored(s: Store, t: DataTransfer, port: Port, between: seq<Event>, data: Bytes, now: nat)
    requires forall e | e in between :: !OnPort(e, port)
    requires var m := Later(After(s, Register(port, t)), between);
             |m.owned| < MAX_SHARDS_STORED && t.chunkHash !in m.files && |data| <= ENCRYPTED_CHUNK_SIZE_B
    ensures var m := Later(After(s, Register(port, t)), between);
            var n := After(m, Receive(data, port, now));
            && n.files == m.files[t.chunkHash := data] && n.owned == m.owned[t.chunkHash := now]
            && n.transfers == m.transfers - {port}
  {
    TransferStays(After(s, Register(port, t)), between, port);
  }

  // A chunk stored or renewed at some time or later reads back as it was stored
  // in every run that deletes nothing as old as that.
  lemma {:induction false} FreshChunkStays(s: Store, more: seq<Event>, hash: Key, since: nat)
    requires StoreOk(s) && hash in s.owned && s.owned[hash] >= since
    requires forall e | e in more && e.Expire? :: e.at - since < EXPIRE_TIME_S
    requires forall e | e in more && e.Touch? && e.hash == hash :: e.when >= since
    ensures hash in Later(s, more).files && Later(s, more).files[hash] == s.files[hash]
    decreases |more|
  {
    if more != [] {
      assert more[0] in more && forall e | e in more[1..] :: e in more;
      StepKeepsStore(s, more[0]);
      StaysOwned(s, more[0], hash, since);
      FreshChunkStays(After(s, more[0]), more[1..], hash, since);
    }
  }

  lemma StaysOwned(s: Store, e: Event, hash: Key, since: nat)
    requires StoreOk(s) && hash in s.owned && s.owned[hash] >= since
    requires e.Expire? ==> e.at - since < EXPIRE_TIME_S
    requires e.Touch? && e.hash == hash ==> e.when >= since
    ensures var t := After(s, e);
            && hash in t.owned && t.owned[hash] >= since
            && hash in t.files && t.files[hash] == s.files[hash]
  {
  }

  // An expired chunk is gone after the next removal.
  lemma StaleChunkGoes(s: Store, hash: Key, now: nat)
    requires StoreOk(s) && hash in s.owned && now - s.owned[hash] >= EXPIRE_TIME_S
    ensures hash !in After(s, Expire(now)).files && hash !in After(s, Expire(now)).owned
  {
  }

  // Ports whose agreed transfer is for this hash.
  ghost function Open(s: Store, hash: Key): set<Port> {
    set p | p in s.transfers && s.transfers[p].chunkHash == hash
  }

  // How often this hash was registered, and stored, in a run.
  ghost function Registrations(events: seq<Event>, hash: Key): nat {
    if events == [] then 0
    else
      var e := events[|events| - 1];
      Registrations(events[..|events| - 1], hash) + if e.Register? && e.transfer.chunkHash == hash then 1 else 0
  }

  ghost predicate StoresHash(s: Store, e: Event, hash: Key) {
    e.Receive? && Verdict(s, e.data, e.rport) == Ok(hash)
  }

  ghost function Stores(events: seq<Event>, hash: Key): nat {
    if events == [] then 0
    else
      var s, e := AfterAll(events[..|events| - 1]), events[|events| - 1];
      Stores(events[..|events| - 1], hash) + if StoresHash(s, e, hash) then 1 else 0
  }

  // Each stored chunk used up a transfer agreed for its hash: in every run,
  // stores and open transfers together never exceed the registrations.
  lemma {:induction false} StoresAreAgreed(events: seq<Event>, hash: Key)
    ensures Stores(events, hash) + |Open(AfterAll(events), hash)| <= Registrations(events, hash)
  {
    if events != [] {
      var s, e := AfterAll(events[..|events| - 1]), events[|events| - 1];
      StoresAreAgreed(events[..|events| - 1], hash);
      OpenAfter(s, e, hash);
    } else {
      assert Open(AfterAll(events), hash) == {};
    }
  }

  lemma OpenRegister(s: Store, port: Port, t: DataTransfer, hash: Key)
    ensures |Open(Registered(s, port, t), hash)| <= |Open(s, hash)| + (if t.chunkHash == hash then 1 else 0)
  {
    var open, after := Open(s, hash), Open(Registered(s, port, t), hash);
    if t.chunkHash == hash {
      SubsetSize(after, open + {port});
    } else {
      SubsetSize(after, open);
    }
  }

  lemma OpenReceive(s: Store, data: Bytes, port: Port, now: nat, hash: Key)
    ensures |Open(Received(s, data, port, now), hash)| + (if Verdict(s, data, port) == Ok(hash) then 1 else 0)
            <= |Open(s, hash)|
  {
    var open, after := Open(s, hash), Open(Received(s, data, port, now), hash);
    if Verdict(s, data, port) == Ok(hash) {
      assert port in open && after == open - {port};
    } else {
      SubsetSize(after, open);
    }
  }

  lemma OpenAfter(s: Store, e: Event, hash: Key)
    ensures |Open(After(s, e), hash)| + (if StoresHash(s, e, hash) then 1 else 0) <=
            |Open(s, hash)| + (if e.Register? && e.transfer.chunkHash == hash then 1 else 0)
  {
    var open, after := Open(s, hash), Open(After(s, e), hash);
    match e
    case Register(port, t) => OpenRegister(s, port, t, hash);
    case Receive(data, port, now) => OpenReceive(s, data, port, now, hash);
    case Expire(now) =>
      assert after == open;
    case Touch(h, now) =>
      assert after == open;
  }
}
