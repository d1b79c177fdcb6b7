# A Kademlia file-sharing node, modelled in Dafny

The project models the logic of a peer-to-peer filesystem node and proves what
its parts keep and compute:

- **Key space** (`Keys`, `KeyPrefix`, `Geometry`): 160-bit keys as byte strings,
  XOR distance, leading zeros, and how the buckets of a node lie around a target.
- **Routing table** (`Buckets`, `BucketWalk`, `WalkStops`, `RoutingTables`,
  `WalkWitness`): k-buckets with least-recently-seen replacement, and the two-cursor
  walk for the closest contacts, described on the table alone and measured against
  a full scan and sort.
- **Iterative lookup** (`Lookup`, `LookupBuffers`, `Rounds`, `FindNodes`,
  `LookupRuns`, `FindStorers`, `StorerRuns`, `Nodes`): the lookup buffer, its rounds, the whole
  run of a node lookup as a function of the search (`AlphaRounds`, `AllAsked`,
  `LookupResult`), and the same for the value lookup (`ValueRounds`,
  `StorerFound`). `LookupWitness`, `ClosingWitness` and `StorerWitness` hold
  networks on which the two fall short; `SmallKeys` the keys those examples use.
- **File sharding** (`Sharding`, `Download`, `Handles`, `LittleEndian`): cutting,
  padding and encrypting a file, putting it together again, and the printable
  file handle.
- **Bookkeeping** (`RequestMaps`, `ChunkStore`): pending requests under every
  interleaving of waiters, timeouts and responses; stored chunks and transfers.

`Closest` holds the shared vocabulary: stable sorting, and `ClosestOf`, the
definition of "the n closest members of a set, nearest first", which has exactly
one answer. `dafny verify dfyconfig.toml` checks everything.

## What the environment is

- The network is a map from contacts to replies. A lookup asks no contact twice
  (proved), so a fixed map stands for any behaviour. Timeouts, send failures and
  unexpected responses are the reply `Mute`.
- Lookups run in a finite universe of contacts in which an id names one contact
  (`World`): the source marks entries by id but tells contacts apart by id and
  address.
- The runs are defined in such a universe to bound them; they do not depend on it
  (`SameRounds`).
- Ping outcomes, random keys, paddings, nonces, read sizes and clock readings are
  inputs. Decryption is assumed to invert encryption and the ciphertext to be 16
  bytes longer (section 5.2 of RFC 5116); UTF-8 decoding to invert encoding.
- Fetching is a fixed function of key and storer: a storer sends the same bytes each
  time it is asked for a key. Finding a storer in `ShareFile` is a function of the
  key. What storers send is otherwise free, except where `Serves` asks that it is an
  uploaded chunk with the hash asked for.
- The results on equal chunks assume two things more, and name them: the nonces of
  an upload differ, as random nonces do, and no ciphertext decrypts under two nonces
  (`CommitsToNonce`), which an authenticating cipher makes improbable rather than
  impossible. No other result uses them.

## Where the code does less than its comments say

- `get_n_closest` is not always exact, against src/routing/routing_table.rs:130.
  `WalkVersusScan` and `StopsVersusScan` give the exact condition, which depends on
  the table and the target only; `TrapMissesCloser` and `WalkMissesCloser` show a family and a
  concrete table on which it fails.
- A lookup does not always find the closest contacts of the network, against
  src/core/node.rs:331: a round in which nobody answers ends the loop, whatever is
  still unasked (`SilentRoundStops`). The result is exact if and only if nobody is
  lost, or K contacts met are closer than all who are (`ExactIff`); lost are the
  reachable contacts that would answer and were never met, and those met, never
  asked and silent. `SilentTrapMisses` shows a family of networks on which it fails.
- What a caller can rely on beforehand: with fewer than ALPHA silent contacts every
  result was asked and answered, nothing is left for the closing round, and the
  result is a fixed point of asking (`FewSilentSettles`). If moreover the network
  leads to the target, the result is the K closest contacts that answer
  (`LedLookup`); if at most K reachable contacts answer, it is all of them
  (`FewTellersExact`). The bound is tight: `LookupMissesClosest` is a network of
  seven contacts, ALPHA of them silent, that leads to the target, and on which the
  closest contact is missed.
- The results are documented as responsive (src/core/lookup.rs:215), and need not
  be. They all have answered if and only if nobody met is left unasked, or K contacts
  that answered are closer than all who are (`AllAnsweredIff`). An unasked result was
  first reported in the closing round, or one of the first K entries is silent
  (`ClosingRound`); `UnheardResult` and `ResultNeverAsked` show that the latter
  happens.
- `find_storer` goes on after a round in which a storer answered, against the
  comment at src/core/node.rs:911-912, and forgets that storer unless nobody is
  left to ask (`HolderRoundDecides`, `StorerFoundIff`). `HolderForgotten` and
  `StorerNotFound` show a family and a concrete network on which a storer answers
  and the search reports that the chunk is not in the network.
- A search that found no storer may have passed one over, or left somebody unasked,
  against src/core/node.rs:948; `NotFoundMeansNone` says when the chunk is in fact
  with nobody reachable.
- Equal chunks of one file share a hash but not a ciphertext. So a file that is
  shared through storers found by key comes back if and only if no two of its
  portions have the same hash (`ShareFile`); a file of two equal blocks does not
  (`TwoBlocksCollide`), not even from storers that keep and send anything else
  (`ShareTwoBlocks`).
- The responsive nodes after a lookup leave out contacts that answered in the
  last round only (`LastRound`, `ResponsiveAnswered`), as contact 6 does in
  `LookupMissesClosest`.
- The data limit of the chunk store compares kilobytes with bytes and is never
  reached; the limit on the number of chunks keeps the bytes bounded all the same
  (`StoreFitsLimit`).

## Model

| member | source | states |
|---|---|---|
| Keys.Distance | src/core/key.rs:121-127 | the loop yields the bytewise XOR, whose big-endian value is `Dist` |
| Keys.CloserByFirstDiff | src/core/key.rs:121-127 | of two keys, the closer one to any target is the one that shares the target's bit where they first differ; no two keys are equally far |
| Keys.DistanceIsMetric | src/core/key.rs:116-127 | identity, symmetry, triangle inequality, and injectivity in each argument |
| Keys.BytesOrderIsIntegerOrder | src/core/lookup.rs:330-336 | comparing distances byte by byte is comparing them as integers, in both directions |
| Keys.LeadingZerosInDistance | src/core/key.rs:134-148 | the counted zeros are the length of the common bit prefix, 160 for equal keys |
| KeyPrefix.MakeExactlyNSameLeadingBitsAs | src/core/key.rs:153-184 | for every n: n bits of the other key, its next bit flipped, all later bits unchanged |
| KeyPrefix.LeavesAtBit | src/core/key.rs:170-183 | a key changed that way has exactly n leading zeros in its distance, for n below 160 |
| Geometry.BucketHoldsRange | src/routing/routing_table.rs:95-103 | a key in bucket i lies at a distance from 2^i up to 2^(i+1) |
| Geometry.HigherBucketDecides | src/routing/routing_table.rs:95-103 | between two buckets the contacts of the higher one are closer exactly when target and own id differ in its bit |
| Geometry.NearBeforeFar | src/routing/routing_table.rs:119-136 | all contacts of buckets whose bit differs come before all contacts of the other buckets |
| Geometry.BucketLayers | src/routing/routing_table.rs:119-136 | the target's bucket before every lower bucket, those before every higher bucket, higher buckets in order |
| Closest.SortSorts | src/core/lookup.rs:330-336 | the stable sort orders by distance and permutes |
| Closest.ClosestUnique | src/routing/routing_table.rs:192-193 | there is only one list of the n closest |
| Buckets.KBucket.RemoveNodeinfo | src/routing/kbucket.rs:80-86 | the contact with the id is cut out and returned; nothing happens if there is none |
| Buckets.KBucket.AddNodeinfo | src/routing/kbucket.rs:52-78 | the new bucket for every ping outcome, failing only when a full bucket could not ping its head |
| Buckets.KBucket.GetNodeinfo | src/routing/kbucket.rs:88-90 | a contact with the id if and only if the bucket has one |
| Buckets.AddedProps | src/routing/kbucket.rs:49-78 | at most K contacts and unique ids after any add; exactly the head of a full bucket that lacked the newcomer goes, unless it answered; the newcomer stays out, and the add fails, in just such cases |
| Buckets.RunKeepsOrder | src/routing/kbucket.rs:23-25 | over every run of adds the bucket is strictly ordered from least to most recently seen |
| Buckets.OnlyLeastRecentDisplaced | src/routing/kbucket.rs:65-77 | a contact that disappears was seen before all others, in a full bucket, and is not the added one |
| BucketWalk.TakeDown | src/routing/routing_table.rs:166-185 | the inner loop collects exactly the buckets down to where `Descend` says, without duplicates |
| BucketWalk.OneTurn | src/routing/routing_table.rs:149-186 | one turn of the outer loop moves the cursors as `Turn` says and collects exactly what lies between |
| WalkStops.DescendMatches | src/routing/routing_table.rs:166-185 | going down takes at least one bucket, and then no more than it takes to match the amount taken above |
| WalkStops.VisitedIsReached | src/routing/routing_table.rs:142-186 | the buckets visited are those between the stops of a walk, which are given by the bucket sizes: each turn takes one bucket up and matches it below, while fewer than n contacts are visited |
| WalkStops.WalkHasStops | src/routing/routing_table.rs:142-186 | every walk has such stops |
| WalkStops.StopsUnique | src/routing/routing_table.rs:142-186 | the bucket sizes fix them |
| WalkStops.WalkBalanced | src/routing/routing_table.rs:149-186 | at least as many buckets and as many contacts are visited below the target's bucket as above, unless all lower ones are |
| WalkStops.WalkStopsSoon | src/routing/routing_table.rs:149-186 | without the last bucket upwards fewer than n contacts were visited from the target's bucket up, without the last one downwards fewer than n + K below |
| BucketWalk.CollectAround | src/routing/routing_table.rs:142-186 | the walk terminates in bounds with the contacts of all buckets between its final cursors, each once |
| BucketWalk.WalkExactness | src/routing/routing_table.rs:119-194 | the n closest of the visited contacts are the n closest of all if and only if no lower bucket was skipped with contacts, or the near buckets visited hold n |
| BucketWalk.FullBucketSuffices | src/routing/routing_table.rs:142-149 | a target bucket with n contacts makes the walk exact |
| RoutingTables.RoutingTable.constructor | src/routing/routing_table.rs:37-42 | an empty valid table |
| RoutingTables.RoutingTable.GetBucketIndex | src/routing/routing_table.rs:96-103 | the bucket of the key's distance; an error exactly for the own id |
| RoutingTables.RoutingTable.StoreNodeinfo | src/routing/routing_table.rs:44-56 | the new table and the error cases; the table stays valid |
| RoutingTables.StoredExactly | src/routing/routing_table.rs:44-56 | who is in the table after a store, for every ping outcome: the newcomer and all others, with exactly the exceptions of a full bucket |
| RoutingTables.RoutingTable.GetNodeinfo | src/routing/routing_table.rs:69-72 | looking into one bucket agrees with scanning all entries |
| RoutingTables.RoutingTable.GetNClosest | src/routing/routing_table.rs:138-194 | the n closest of the contacts that the stops of the walk reach, `Empty` if there are none, an error for the own id |
| RoutingTables.RoutingTable.GetRandomIdForBucket | src/routing/routing_table.rs:210-216 | the generated id maps back to the bucket asked for |
| RoutingTables.RunKeepsTable | src/routing/routing_table.rs:44-103 | after every run of stores: K per bucket, ids unique in the whole table, own id absent, distances in the bucket's range |
| RoutingTables.ScanIsClosest | src/routing/routing_table.rs:258-275 | the reference scan yields the n closest of the whole table |
| RoutingTables.WalkVersusScan | src/routing/routing_table.rs:119-194 | for every table, target and n of at least one, walk and scan give the same answer if and only if `WalkSuffices` |
| RoutingTables.StopsVersusScan | src/routing/routing_table.rs:119-194 | the same condition on the table alone: the buckets below the last stop are empty, or n near contacts are reached |
| RoutingTables.WalkOfZero | src/routing/routing_table.rs:138-194 | for n = 0 they agree if and only if the target's bucket has contacts or the table is empty |
| RoutingTables.WalkDelivers | src/routing/routing_table.rs:145-193 | min(n, total) distinct entries in increasing distance; `Empty` only for an empty table |
| WalkWitness.TrapMissesCloser | src/routing/routing_table.rs:149-186 | on every table of the described kind the walk leaves out a contact closer than all it returns, and so differs from the scan |
| WalkWitness.WalkMissesCloser | src/routing/routing_table.rs:149-186 | node 0 stores 4, 5, 6 and 1; asked for three contacts near 8, the walk leaves out 1, the closest |
| Lookup.ResultIsClosest | src/core/lookup.rs:219-226 | the result vector is the K closest of the contacts that did not fail |
| Lookup.AlphaIsClosest | src/core/lookup.rs:249-263 | the picks are the ALPHA closest contacts not queried yet |
| Lookup.AbsorbAllSets | src/core/lookup.rs:297-320 | for arbitrary responses: known contacts grow by exactly the reported ones other than this node, marks by exactly the resolvers |
| Lookup.SortedSets | src/core/lookup.rs:330-336 | sorting puts the buffer in strict order and changes no contact and no mark |
| LookupBuffers.LookupBuffer.constructor | src/core/lookup.rs:199-212 | the initial contacts, unmarked and sorted |
| LookupBuffers.LookupBuffer.GetAlphaUnqueriedNodes | src/core/lookup.rs:249-263 | returns the first ALPHA unqueried contacts and marks exactly those |
| LookupBuffers.LookupBuffer.RecordLookupRoundResponses | src/core/lookup.rs:290-325 | the new buffer for both lookup kinds, unsorted if a value cuts recording short, and when the loop goes on |
| FindNodes.RoundBuffered | src/core/node.rs:349-363 | each round leaves the buffer with exactly the contacts met, the asked ones queried, the answering ones responded |
| FindNodes.LastRound | src/core/node.rs:365-369 | after the closing round the contacts that did not fail are those met and not known to be silent; its tellers are missing from the responsive ones |
| FindNodes.ChangeReported | src/core/lookup.rs:295-324 | for arbitrary answers the result changes if and only if a contact entered it that was failed or unknown; it answered or was first reported in this round |
| FindNodes.SilentRoundStops | src/core/lookup.rs:295-324 | a round without answers reports no change |
| FindNodes.StopsSettled | src/core/node.rs:349-369 | unless ALPHA contacts were asked and none answered, a round that ends the loop leaves every result asked and answered and nothing for the last round |
| LookupRuns.SameRounds | src/core/node.rs:349-363 | which contacts a run asks depends on target, initial contacts, own node and replies only |
| LookupRuns.RoundsKeep | src/core/node.rs:349-363 | from any point of a run: nobody is asked twice, only reachable contacts are, the buffer stays exact, and with fewer than ALPHA silent contacts no result is left unasked |
| LookupRuns.ResultOfAllMet | src/core/node.rs:347-389 | the result of every run is the K closest of all contacts met that are not known to be silent |
| LookupRuns.ResultMembers | src/core/node.rs:347-389 | results are reachable, are not this node, and answered if they were asked |
| LookupRuns.ResponsiveAnswered | src/core/lookup.rs:269-275 | the responsive nodes are exactly those that answered before the closing round, nearest first |
| LookupRuns.ExactIff | src/core/node.rs:331-389 | the result is the K closest reachable answering contacts if and only if nobody is lost, or K contacts met are closer than everybody lost |
| LookupRuns.AllAskedIsExact | src/core/node.rs:331-389 | a run that asked everybody it met is exact |
| LookupRuns.ClosingRound | src/core/node.rs:365-369 | the closing round asks exactly what is unasked of the first K entries, nearest first; a result met before and never asked needs a silent contact among them |
| LookupRuns.AllAnsweredIff | src/core/lookup.rs:214-226 | every result has answered if and only if nobody met is left unasked, or K contacts that answered are closer than all who are |
| LookupRuns.FewSilentSettles | src/core/node.rs:347-389 | with fewer than ALPHA silent contacts: nothing is left for the closing round, every result has answered, and whoever a result told of is a result, is silent, or is farther than a full result |
| LookupRuns.LedLookup | src/core/node.rs:331-389 | with fewer than ALPHA silent contacts, where every contact tells of a closer one and the closest of the next K-1, a lookup from any start that has an answering contact returns exactly the K closest that answer |
| LookupRuns.FewTellersExact | src/core/node.rs:331-389 | with fewer than ALPHA silent contacts, and at most K reachable ones that answer, a lookup returns exactly these |
| LookupRuns.RunRounds | src/core/node.rs:349-363 | the loop terminates for every network, asks exactly the contacts of the run in its order, and leaves the run's buffer |
| LookupRuns.RunLookup | src/core/node.rs:347-389 | result, responsive nodes and contacts asked are those of the run; with the properties above for every network |
| LookupWitness.SilentTrapMisses | src/core/node.rs:349-369 | where the closest contacts of round two are silent, a contact further off that is closer than all met is missed, although it is reachable and answers |
| LookupWitness.LookupMissesClosest | src/core/node.rs:349-369 | node 8 looks for 0 among 1 to 7 from 7, with just ALPHA silent contacts and in a network that leads to 1, and does not find 1; 6 answers in the closing round and is not among the responsive ones |
| ClosingWitness.UnheardResult | src/core/node.rs:365-388 | if the closing round reports nobody new and fewer contacts answered than are returned, a contact known before is returned without having been asked |
| ClosingWitness.ResultNeverAsked | src/core/node.rs:365-388 | node 25 looks for 0 among 1 to 24 from 1, with 2, 3 and 4 silent, and returns such a contact |
| FindStorers.LastIsNew | src/core/node.rs:901-916 | while anybody is left to ask, the last round asks contacts not asked before |
| FindStorers.HolderRoundDecides | src/core/node.rs:901-925 | a round with a holder is the one that decides if and only if it leaves nobody to ask |
| FindStorers.HolderLastIff | src/core/node.rs:901-925 | the last round has a holder if and only if some round has one and leaves nobody to ask; nobody is then left at the end |
| FindStorers.StorerFoundIff | src/core/node.rs:901-949 | in every search, a storer is found if and only if the closing round has a holder, or a round with a holder leaves nobody to ask |
| FindStorers.FirstHoldersFound | src/core/node.rs:901-949 | if all holders are asked in the first round, a storer is found if and only if that round leaves nobody to ask |
| FindStorers.EverySearch | src/core/node.rs:876-951 | in every search nobody is asked twice, and whoever is found holds the chunk and is reachable |
| FindStorers.HolderIn | src/core/node.rs:918-925 | the first contact of a round that holds the value, none exactly if nobody does |
| FindStorers.RunValueRounds | src/core/node.rs:901-916 | the value loop terminates, asks exactly the contacts of the run, and keeps the responses of its last round only |
| StorerRuns.SearchIsLookup | src/core/node.rs:901-916 | a search asks a holder in its rounds if and only if the node lookup would; if it asks none, its rounds and its buffer are those of the node lookup |
| StorerRuns.SearchWithoutHolder | src/core/node.rs:901-916 | if no round had a holder, the buffer ends in order with exactly the contacts met, the asked ones queried and the tellers responded |
| StorerRuns.ValueRoundHeard | src/core/lookup.rs:297-325 | what any value round adds: exactly the contacts told of by the picks in front of the first holder, whose tellers are marked responded |
| StorerRuns.CutKeepsPlaces | src/core/lookup.rs:297-325 | a round cut short leaves the known contacts in their places, new ones behind them |
| StorerRuns.SearchHeard | src/core/node.rs:901-916 | over every run, the buffer ends with exactly the contacts met through those heard |
| StorerRuns.NotFoundMeansNone | src/core/node.rs:926-949 | if nothing is found, no round had a holder and everybody met was asked, no reachable contact holds the chunk |
| StorerRuns.ExhaustedSearch | src/core/node.rs:901-949 | nor if no round had a holder and the rounds leave nobody to ask |
| StorerRuns.HolderIsAsked | src/core/node.rs:901-916 | with fewer than ALPHA contacts that do not tell, in a network that leads to the target, a holder told of by one of the K closest is asked |
| StorerRuns.OneHolderFound | src/core/node.rs:876-951 | a single holder, the closest of the contacts told of by the initial ones, is found if and only if these are at most ALPHA |
| StorerRuns.ToldHolderFound | src/core/node.rs:876-951 | a holder that the only initial contact tells of is found |
| StorerRuns.FindStorer | src/core/node.rs:876-951 | returns the storer of the run; one is found if and only if the chunk is stored here or a holder is among the resolvers of the last or the closing round; with the last two results and the comparison to the node lookup for every search |
| StorerWitness.HolderForgotten | src/core/node.rs:901-949 | if the only holder is asked first together with a closer contact that tells of another one, the search finds no storer |
| StorerWitness.StorerNotFound | src/core/node.rs:901-949 | node 4 asks 1 and 2 for chunk 0, 2 says it holds it, and no storer is found |
| Nodes.AnswerFindNode | src/core/request_handler.rs:123-150 | an answer exactly if the target is not the own id and the table is not empty; it holds the contacts `get_n_closest` gives and always fits a response |
| Nodes.StartFromTable | src/core/node.rs:336-347 | resolvers taken from a valid table are distinct and never this node |
| Nodes.FindNode | src/core/node.rs:335-389 | the result of the run from the table's ALPHA contacts, exact under the condition above; the new table is the old one with the responsive contacts stored in order, stays valid, and gains only contacts that answered |
| Sharding.UnpaddedPlaintext | src/sharding/downloader.rs:56-76 | cutting the padding off a padded chunk gives the data back, for every data and padding |
| Sharding.FileUploader.GetNextChunkEncrypt | src/sharding/uploader.rs:55-95 | for every read size, padding and nonce: a chunk of the fixed size that decodes to the bytes read, their padding and their number; its key in chunk and metadata is the hash of its own padded data; none exactly at the end, an error exactly if the cipher refuses |
| Sharding.FileUploader.GetMetadata | src/sharding/uploader.rs:97-103 | unless the cipher refused, the metadata decodes the chunks handed out to the whole file; an error exactly while bytes are unread |
| Sharding.UploadChunks | src/core/node.rs:415-440 | the loop hands out one chunk for each portion the reads cut, and fails exactly if the cipher refuses one |
| Sharding.UploadFile | src/core/node.rs:412-449 | succeeds exactly if the file is not too big and the cipher takes every portion; then the chunks make up the file, each of the fixed size and keyed by the hash of its own padded data, one metadata entry for each portion |
| Sharding.FileDownloader.StoreNextChunkDecrypt | src/sharding/downloader.rs:38-84 | accepts a chunk exactly if it is wanted, not empty, decrypts and has the right hash, and then appends its piece, as long as its size says; which error it is; errors change nothing |
| Sharding.DownloadChunks | src/sharding/downloader.rs:38-84 | succeeds exactly if every chunk is accepted, and writes what they make up |
| Sharding.RoundTrip | src/sharding/downloader.rs:38-84 | upload then download reproduces every file byte for byte, for every schedule of reads, paddings and nonces; it fails exactly for a file that is too big or a portion the cipher refuses |
| Download.FindStorersParallel | src/core/node.rs:843-869 | one pair for each requested key, in order, for every list length; fails exactly if one search fails |
| Download.DownloadFile | src/core/node.rs:460-497 | succeeds exactly if all chunks are found, sent and accepted; which error a missing storer or chunk gives; `UnwantedChunk` and `ChunkHashMismatch` never occur; fails if two chunks of one hash come from one storer |
| Download.DownloadShared | src/core/node.rs:460-497 | from storers that send uploaded chunks with the hash asked for, the file comes back if no two chunks share a hash, and the download fails if two do |
| Download.ShareFile | src/core/node.rs:403-497 | from end to end, for every file, schedule of reads and such storers: the upload succeeds exactly if the file is not too big and the cipher takes every portion, and then the file comes back byte for byte if and only if no two of its padded portions have the same hash; so it does if they differ and the hash tells them apart |
| Download.TwoBlocks | src/sharding/uploader.rs:55-91 | a file of two equal full blocks, read block by block, has two portions that differ in the nonce only |
| Download.TwoBlocksCollide | src/sharding/uploader.rs:55-91 | two portions of such a file have the same hash, so that `ShareFile` fails on it |
| Download.ShareTwoBlocks | src/core/node.rs:403-497 | it fails as well if storers send anything at all: any fetch, any two searches that find one storer |
| Handles.HexEncodeAt | src/sharding/common.rs:67-75 | two lower-case hexadecimal digits for each byte, the higher half first |
| Handles.RecordLayout | src/sharding/common.rs:67-75 | name, key and number of chunks, each length in eight bytes, least significant first, in front of what it counts; then 56 bytes and the nonce for each chunk |
| Handles.KeyHexRoundTrip | src/core/key.rs:74-93 | parsing a key's hex string gives the key |
| Handles.HexRoundTrip | src/sharding/common.rs:67-88 | hex decoding inverts hex encoding for all bytes |
| Handles.DecodesIff | src/sharding/common.rs:81-83 | exactly the strings of evenly many digits, of either case, decode |
| Handles.RecordBack | src/sharding/common.rs:67-88 | reading the binary record gives the metadata back, whatever follows it |
| Handles.HandleRoundTrip | src/sharding/common.rs:67-88 | parsing a printed handle gives the same name, key and chunk list |
| RequestMaps.StepKeepsInv | src/networking/request_map.rs:39-97 | every atomic step keeps the invariant of map, waiters, handlers and channels |
| RequestMaps.RunIsSafe | src/core/node.rs:510-545 | in every interleaving `BadResponse` is unreachable, a resolved request got a response with its id, and every entry of the map belongs to a known, unfinished request with its id |
| RequestMaps.Delivered | src/networking/request_map.rs:79-97 | a response that arrives for a waiting request is delivered, each step of its handler and the final receipt being possible in its turn, under every interleaving that neither times the request out nor takes its sender |
| RequestMaps.RequestIsAnswered | src/core/node.rs:510-545 | the same in whole runs: the request ends as resolved with that response |
| RequestMaps.OneRequestAnswered | src/core/node.rs:510-545 | the plain run of one request and its response ends as resolved |
| RequestMaps.HandlerEnds | src/networking/request_map.rs:79-97 | a handler ends without delivering only if its request was not pending or its receiver was closed |
| RequestMaps.UnsentEnds | src/core/node.rs:522-526 | a request whose sending fails ends as unable to send and leaves the map |
| RequestMaps.TimeoutEnds | src/core/node.rs:528-544 | a waiting request without an answer can time out, ends so and leaves the map |
| RequestMaps.OutcomeFits | src/core/node.rs:522-544 | a request ends as unable to send, timed out or resolved exactly as it stood before, resolved with the delivered response |
| RequestMaps.ResolvedOnce | src/core/node.rs:510-545 | a finished request never changes again and a delivered answer is never replaced |
| RequestMaps.ResolvedByArrival | src/networking/request_map.rs:79-97 | a request is resolved only by a response that arrived |
| ChunkStore.ShardStorageManager.constructor | src/storage/shard_storage_manager.rs:58-67 | an empty valid store |
| ChunkStore.ShardStorageManager.AddActiveTcpConnection | src/storage/shard_storage_manager.rs:171-178 | the transfer is registered under its port, replacing and returning an earlier one |
| ChunkStore.ShardStorageManager.StoreChunkForKnownPeer | src/storage/shard_storage_manager.rs:72-115 | taken if and only if the port has a transfer, fewer than 1024 chunks are owned, the data fits, and no file has the hash; then the file holds the data, the chunk is owned since now, exactly that transfer is gone and nothing else changed; otherwise nothing changes and the first reason is given; `StorageMemoryExceeded` never occurs |
| ChunkStore.ShardStorageManager.ReadChunk | src/storage/shard_storage_manager.rs:118-126 | the stored bytes exactly for owned chunks |
| ChunkStore.ShardStorageManager.RemoveDeadChunks | src/storage/shard_storage_manager.rs:129-150 | a chunk stays if and only if it is younger than the expiry time, with its bytes and its age, in directory and map alike |
| ChunkStore.ShardStorageManager.UpdateChunkUploadTime | src/storage/shard_storage_manager.rs:185-192 | a new time for an owned chunk, an error otherwise |
| ChunkStore.AgreedIsStored | src/storage/shard_storage_manager.rs:72-115 | whatever happens on other ports after a transfer was agreed: if there is room then, a small enough new chunk is stored as it came |
| ChunkStore.FreshChunkStays | src/storage/shard_storage_manager.rs:118-150 | a chunk reads back as it was stored in every run that deletes nothing as old as it |
| ChunkStore.StaleChunkGoes | src/storage/shard_storage_manager.rs:129-150 | an expired chunk is gone after the next removal |
| ChunkStore.RunKeepsStore | src/storage/shard_storage_manager.rs:72-150 | in every run owned chunks and files have the same keys, at most 1024 of at most the chunk size |
| ChunkStore.StoreFitsLimit | src/storage/shard_storage_manager.rs:79-89 | the files together stay below 4096 MB |
| ChunkStore.StoredBytesStay | src/storage/shard_storage_manager.rs:93-126 | a stored chunk keeps its bytes as long as it is there |
| ChunkStore.StoresAreAgreed | src/storage/data_transfers_table.rs:31-42 | in every run, stores of a hash and open transfers for it never exceed its registrations |

## Left out

- StorerRuns.FindStorer: that every holder that answers is found is not stated, because it does not hold (`HolderForgotten`); `StorerFoundIff` says when one is.
- LookupRuns.RunLookup: exactness is not stated for every network, because it does not hold (`LookupMissesClosest`); `ExactIff` gives the condition.
- LookupRuns.ClosingRound: that each result answered or was first reported in the closing round is not stated, because a silent contact among the first K entries lets an unasked one move up (`ResultNeverAsked`).
- Nodes.FindNode: the time of the last bucket lookup, which only the periodic refresh reads.
- Ping while the table is locked: the ping outcome is an input, and no progress is claimed for storing into a full bucket.
- Pending requests are modelled as atomic steps on values, not as a class, because what matters is their interleaving.
- Filesystem failures in the chunk store and the directory left over from an earlier start.
- `join_network` beyond its lookup, which is `RunLookup` started from the beacon's answer.
- Sockets, worker pools, message encoding and the message size limit.
- Upload negotiation (STORE and GET_PORT) and reuploading: filters and environment calls.
- The AES-GCM cipher, SHA-1 and UTF-8 themselves.
- Command line, configuration, cache file, logging and the file manager.
