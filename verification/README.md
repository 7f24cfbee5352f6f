# A verified model of the lock service

The repository holds several servers for one lock API: acquire a key for a
lockee, release it, list what is held. This project models the parts whose correctness is
not obvious from one function and proves what they promise.

- **The reference.** `LockStore` is the Go in-memory store, one map behind a mutex.
  `LockRuns` proves what it guarantees over whole runs: mutual exclusion, constant tenures,
  and times that never go back.
- **The C epoll server, end to end.** `ProbeTable` and `HashTable` are the open-addressing
  table with in-place growth and backward-shift deletion. `ShardLocks`, `Sharding`,
  `LockServer` and `Handlers` put 256 such tables behind the request handlers. `HttpParse`,
  `HttpRoundTrip`, `JsonRequest`, `JsonRoundTrip`, `RequestMeaning` and `ConnectionModel` cover
  request parsing, what a request means, and the read loop. `Decimal`, `Civil`, `Timestamp`,
  `Listing`, `ListingOrder`, `ListingLimits`, `Responses` and `ResponseStream` cover what is
  written back and how a client splits it into messages. `JsonReader` is a client's JSON reader,
  written apart from the servers' printing; `ListingReadback` and `AnswerReading` prove what it
  finds in a listing and in every other answer, in terms of the store before and after the request.
  `RequestLoop`, `Connections` and `EndToEnd` compose all of it on one connection: printed
  requests in any chunks, answered through the single-map store, replies split apart again by
  the client. `Schedules`, `ManyConnections` and `ClientView` do so for any number of connections
  whose turns are scheduled in any order, down to when every request is answered
  (`EndToEnd.ServeClients`), and `ConcurrentListing` for a listing among other requests.
  `Clusters` shows where the entries of a shard end up.
- **The other designs.** `ShardedStore` and `ShardedListing` are the Go sharded store, alone
  and under interleaving. `EventLoop` is the .NET message loop as a step system, and
  `EventLoopProgress` shows that every call comes back. `ZigStore` is a Zig shard with its
  allocator and every allocation failure; `ZigJson` is its JSON output.
- **The benchmark client.** `Workers` runs the partitioned workers against the store, over
  phases that end by cancellation, with requests that take effect after they were given up;
  `PhaseGains` says when a phase gains at most one held key per worker.

`Buffers`, `ByteScan`, `CInts`, `MapFacts` and `Wrappers` hold shared small pieces.
`dafny verify dfyconfig.toml` checks everything.

## How the model reads

- A byte is a `char`; every statement holds for all characters, so for all bytes.
- A hash is an arbitrary function from keys to natural numbers. The clock is an input, a
  natural number of seconds; it is required to be non-decreasing only where a lemma says so.
- A shard's critical section is one atomic step.
- A method that changes state takes the single-map store it stands for as a ghost argument
  `s` (`Represents(s)`) and promises `Represents` of that store's successor.
- Some lemmas take a parser, a printing function or a rule as a parameter with the one
  property the argument needs; `ParseIsStable`, `ParseIsParse`, `StampIsStamp` and
  `FaithfulIsRule` show that the server's own have it.

## Where the code does not do what one might expect

Each of these is stated by the member named with it, and so is the exact condition under which
the expectation is met.

- The C server's `GET /locks` does not always list all locks, as the API promises: it
  stops near the end of its buffer. `ListingLimits.StoreListedCompletelyIff` says which stores
  are listed completely, by the sum of their name lengths; `Listing.ListingBounds` shows that
  one that stops early lists at least 32; and `ListingLimits.ListingCanBeCut` reaches a server by
  forty printed requests that lists exactly 32.
- The C and Zig servers print the same time exactly when it is not before 1970 and the day
  number fits a 32-bit `int` (`Timestamp.CAndZigAgree`). The C timestamp is valid and reads back
  exactly for the seconds from 1970 to the end of 9999 (`Timestamp.TimestampRoundTrip`).
- The C scanner recovers a true `force` exactly when no line break stands between its own
  colon and its value (`JsonRoundTrip.RequestRoundTrip`, `JsonRoundTrip.ForceBehindNewlineIsLost`).
- The C scanner does not see every member of a valid body. It ignores a name with whitespace
  before its colon (`JsonRoundTrip.SpacedKeyIsRefused`). And where an ignored member has a comma or
  a closing brace in its string, it takes the next member for part of that string, so that a
  remark such as `"note":"a,b"` hides the key behind it (`JsonRoundTrip.RemarkHidesKey`).
  `JsonRoundTrip.RequestRoundTrip` says for every body which members are seen, and
  `JsonRoundTrip.AllSeenIff` when none is hidden.
- The C server prints a timestamp with a quote in it, which breaks the JSON of a listing, exactly
  if the thousands of its year or the tens of its day are 242 modulo 256, which does not happen
  before the year 242000 (`ListingReadback.StampQuotedIff`).
- A listing of the sharded store is a snapshot exactly if requests can touch at most one shard
  during the call (`ShardedListing.SnapshotIff`). For any hash and any two keys of different
  shards a run breaks it (`ShardedListing.ListingIsNoSnapshot`); what holds in every run is
  `ShardedListing.ListingGuarantee`.
- A connection survives pipelined requests exactly if each of them fits the read buffer, however
  they are chunked (`HttpRoundTrip.PipelineRecovered`). Among other connections, one that is given
  enough turns answers all its client's requests exactly in that case
  (`Schedules.AnsweredIffEachFits`).
- A Zig forced takeover that runs out of memory drops the old holder
  (`ZigStore.Shard.Acquire`).
- Over-long names are cut by the C server, not refused. `LockServer.CutCollides` says which
  names become one and `RequestMeaning.NamesKeptIff` which requests keep theirs.
  `RequestMeaning.BlockedIff` says when a lock on one key blocks another key, and
  `RequestMeaning.SharedIff` when two lockees hold and release one lock together, so that there
  is no mutual exclusion between them; `RequestMeaning.LongKeysShareALock` and
  `RequestMeaning.LongLockeesShareALock` give such pairs.
- The C server refuses a printed body exactly if it sees no non-empty key or no lockee in it
  (`RequestMeaning.BodyRefusedIff`); an empty lockee is accepted
  (`RequestMeaning.EmptyLockeeAccepted`), unlike in the Go servers' handlers, which are not part
  of this model.
- Any path that begins with `/healthz` is the health check; `HttpParse.EndpointIff` says which
  request bytes reach which endpoint.
- A benchmark phase is sure to gain at most one key per worker exactly if no acquire given up in
  an earlier phase is still under way, or every worker has only one key
  (`PhaseGains.GainsAtMostOneEachIff`). Such an acquire does arise
  (`PhaseGains.LateAcquireArises`). The bounds that count them are `Workers.EveryPhaseGains` for
  any phase of a run and `Workers.LeaksAtMostOneEachPhase` for all together.

`solutions/README.md` still names `DELETE /lock`; the code uses `POST /unlock`, and so does the
model.

## Model

| member | source | states |
|---|---|---|
| LockStore.Step | solutions/go-inmemory/main.go:25-55 | one acquire or release on the single map keeps every entry filed under its own key |
| LockRuns.StepMeetsContract | solutions/go-inmemory/main.go:25-55 | granted iff free, own or forced; a refusal names the holder and changes nothing; a release succeeds iff by the holder; other keys untouched |
| LockStore.GoStore.Acquire | solutions/go-inmemory/main.go:25-40 | the mutating method computes exactly the reference step |
| LockStore.GoStore.Release | solutions/go-inmemory/main.go:42-55 | the mutating method computes exactly the reference step |
| LockStore.GoStore.List | solutions/go-inmemory/main.go:57-66 | every entry exactly once, whatever the iteration order |
| LockStore.ListsSize | solutions/go-inmemory/main.go:57-66 | a listing is as long as the map is large |
| LockRuns.StepEndsTenure | solutions/go-inmemory/main.go:25-55 | a holder loses a key iff the request is its own release or another's forced acquire; otherwise the entry is unchanged |
| LockRuns.TenureEndsOnlyBy | solutions/go-inmemory/main.go:25-55 | over any run: between holding and not holding lies a step, taken while still holding, that is a release by the holder or a forced acquire by another |
| LockRuns.TenureIsConstant | solutions/go-inmemory/main.go:25-55 | over any run: re-acquires, refused acquires and releases by displaced lockees leave holder and since as they were |
| LockRuns.OneReleaseEndsAll | solutions/go-inmemory/main.go:25-55 | however often the holder re-acquires and whatever others do that does not end its tenure, one release frees the key |
| LockRuns.SinceMonotone | solutions/go-inmemory/main.go:37-39 | with a non-decreasing clock the since of a key never decreases across tenures |
| ProbeTable.ProbeMisses | solutions/c-epoll/server.c:138-148 | a probe that meets an empty slot proves the key absent |
| ProbeTable.FillKeeps | solutions/c-epoll/server.c:164-199 | storing in the first empty slot keeps the probing invariant and adds exactly one binding |
| ProbeTable.DisplacedIffOnPath | solutions/c-epoll/server.c:212-217 | the two-case wrap-around test holds iff the hole lies on the entry's probe path |
| ProbeTable.EmptySlot | solutions/c-epoll/server.c:181 | a table whose map is smaller than its capacity has an empty slot, so probes end |
| ProbeTable.ClosingMove | solutions/c-epoll/server.c:218-223 | moving a displaced entry into the hole keeps the map and the deletion invariant, and the scan gets closer to its end |
| ProbeTable.ClosingSkip | solutions/c-epoll/server.c:212-223 | leaving an entry that is not displaced keeps the deletion invariant |
| ProbeTable.ShiftDone | solutions/c-epoll/server.c:211-224 | when the scan meets an empty slot no entry has the hole on its path |
| HashTable.Table.constructor | solutions/c-epoll/server.c:132-136 | an empty table of capacity 32 |
| HashTable.Table.Probe | solutions/c-epoll/server.c:138-148 | terminates at the key's slot, or at an empty slot exactly if the key is absent |
| HashTable.Table.Find | solutions/c-epoll/server.c:138-148 | finds the key's entry iff the map has the key |
| HashTable.Table.Place | solutions/c-epoll/server.c:164-176 | terminates and adds exactly the given entry |
| HashTable.Table.Rehash | solutions/c-epoll/server.c:157-160 | every entry lands in the larger array, none is added |
| HashTable.Table.Grow | solutions/c-epoll/server.c:152-162 | doubles the capacity, same map, same count |
| HashTable.Table.Insert | solutions/c-epoll/server.c:178-199 | adds exactly one binding, grows exactly at 75% load, keeps the load invariant |
| HashTable.Table.CloseGap | solutions/c-epoll/server.c:209-224 | backward shift terminates, keeps the map and restores the probing invariant, clusters across the end included |
| HashTable.Table.Remove | solutions/c-epoll/server.c:201-230 | removes exactly the given key, or nothing if it is absent |
| HashTable.Table.SetHolder | solutions/c-epoll/server.c:562-569 | rewriting a holder in place changes only that binding |
| Clusters.CountIsOccupied | solutions/c-epoll/server.c:126-130 | the number of bindings is the number of occupied slots |
| Clusters.OneHomeOneRun | solutions/c-epoll/server.c:138-140 | if all entries share a home the occupied slots are the cyclic run from it |
| Clusters.ShardIsOneRun | solutions/c-epoll/server.c:543-544 | in shard i with at most 256 slots all entries share the home i mod cap and occupy the run of length count from it |
| ShardLocks.AcquireIn | solutions/c-epoll/server.c:550-579 | the critical section of an acquire is the reference step on the shard's store |
| ShardLocks.ReleaseIn | solutions/c-epoll/server.c:619-632 | the critical section of a release is the reference step on the shard's store |
| Sharding.StepIsLocal | solutions/go-sharded/main.go:41-83 | a request changes only its key's shard and acts there as on the whole store |
| Sharding.PartsDetermine | solutions/go-sharded/main.go:30-39 | the shards determine the single map |
| Sharding.ListingsPermute | solutions/go-sharded/main.go:85-95 | any two listings of a store are permutations of each other |
| LockServer.NewShards | solutions/c-epoll/server.c:241-246 | 256 separate empty tables |
| LockServer.Cut | solutions/c-epoll/server.c:540-541 | a name is cut to one byte less than its buffer and otherwise kept |
| LockServer.CutCollides | solutions/c-epoll/server.c:540-541 | two names become one iff they are equal or both at least as long as what is kept and agree on it |
| LockServer.Server.StoreIsDetermined | solutions/c-epoll/server.c:234-239 | the tables stand for one store only |
| LockServer.Server.Restored | solutions/c-epoll/server.c:543-579 | a critical section on one shard gives the whole server's reference step, all other shards untouched |
| LockServer.Server.Acquire | solutions/c-epoll/server.c:543-579 | state and result are those of the single-map acquire |
| LockServer.Server.Release | solutions/c-epoll/server.c:614-632 | state and result are those of the single-map release |
| LockServer.Server.Run | solutions/c-epoll/server.c:543-632 | over any run of requests all results and the final state are those of the single-map store |
| LockServer.ReportsAt | solutions/c-epoll/server.c:543-632 | each result of such a run reports the single-map store's reply |
| Handlers.PostOp | solutions/c-epoll/server.c:533-541 | the acquire a body asks for, with names that fit an entry |
| Handlers.UnlockOp | solutions/c-epoll/server.c:604-612 | the release a body asks for, with names that fit an entry |
| Handlers.HandlePostLock | solutions/c-epoll/server.c:533-602 | 400 without a state change for a bad body; otherwise the single-map acquire on the cut names, answered 200 with the lockee or 409 with the holder; `AnswerReading.LockTold` says what a client reads |
| Handlers.HandleUnlock | solutions/c-epoll/server.c:604-640 | 400 for a bad body; otherwise the single-map release answered 200, 404 or 403; `AnswerReading.UnlockTold` says what a client reads |
| Handlers.LockTextFits | solutions/c-epoll/server.c:581-601 | a lock answer never exceeds its 384-byte buffer |
| Handlers.SlotsListStore | solutions/c-epoll/server.c:651-678 | reading all slots in order lists the store, every lock once |
| Handlers.HandleGetLocks | solutions/c-epoll/server.c:642-685 | the body prints a prefix of the locks in slot order, which list the store, fits its buffer, and shows at least 32 locks if it stops early; `ListingReadback.ListingIsRead` says what a client reads |
| Listing.ListingBounds | solutions/c-epoll/server.c:643-645 | a finished body fits 7936 bytes; one cut short has at least 32 entries |
| Listing.ListingCompleteIff | solutions/c-epoll/server.c:671-674 | the listing is complete iff all but its last entry stay within the limit |
| ListingLimits.StoreListedCompletelyIff | solutions/c-epoll/server.c:642-681 | a store is listed completely iff its name lengths, without the last lock's, plus 54 bytes for every other lock stay within the limit |
| ListingLimits.NameTotalListed | solutions/c-epoll/server.c:651-678 | the name bytes are the same in every listing of a store |
| ListingLimits.CrowdedListing | solutions/c-epoll/server.c:671-674 | of 32 or more locks with names of full length exactly 32 are shown, in any order |
| ListingLimits.CrowdBodyDecoded | solutions/c-epoll/server.c:533-541 | each of the forty printed bodies asks for its lock, names uncut |
| ListingLimits.ListingCanBeCut | solutions/c-epoll/server.c:642-681 | for any hash a server that has answered forty printed lock requests lists 32 of its forty locks |
| ListingReadback.RequestsUnquoted | solutions/c-epoll/server.c:418-463 | no request can put a quote into a name |
| ListingReadback.AnswersKeepUnquoted | solutions/c-epoll/server.c:689-699 | names stay free of quotes in every state requests lead to |
| ListingReadback.ListingIsRead | solutions/c-epoll/server.c:642-685 | a client that reads the body by its member names finds exactly the first k locks of the listing, each with its key, its holder and, until the end of 9999, the second it was taken |
| ListingReadback.StampQuotedIff | solutions/c-epoll/server.c:257-304 | a printed timestamp has a quote in it iff the thousands of its year or the tens of its day are 242 modulo 256 |
| ListingReadback.EntryPrefixFree | solutions/c-epoll/server.c:659-669 | listed entries are an injective prefix-free code for key, lockee and timestamp |
| ListingReadback.ListingDetermines | solutions/c-epoll/server.c:642-685 | two listings of reachable stores have the same body iff they show the same keys, lockees and timestamps in the same order |
| ListingReadback.StampDetermines | solutions/c-epoll/server.c:257-304 | until the end of 9999 a shown timestamp determines the time |
| ConcurrentListing.TableVisit | solutions/c-epoll/server.c:655-657 | what is read of a shard under its lock lists that shard at that instant, whatever the table's capacity has become |
| ConcurrentListing.ShownGuarantee | solutions/c-epoll/server.c:651-678 | a listing among other requests, cut off or not, shows no key twice, only locks held at some instant of the call, and every tenure that spans the call whose shard was read to its end |
| ConcurrentListing.ServerListing | solutions/c-epoll/server.c:642-685 | the same for the server's 256 tables and the slots it has read; the body fits its buffer, and cut short it shows at least 32 locks |
| Listing.PutTables | solutions/c-epoll/server.c:651-678 | the nested loops write what the specification says and stop where it says, without leaving the buffer |
| Listing.ListingText | solutions/c-epoll/server.c:642-681 | the whole body, stopping exactly at the specified entry |
| ListingOrder.OccupiedLists | solutions/c-epoll/server.c:655-657 | the occupied slots of a table list its bindings, each once |
| Decimal.DecRoundTrip | solutions/c-epoll/server.c:308-315 | reading a numeral back gives the number |
| Decimal.UintToStr | solutions/c-epoll/server.c:308-315 | writes the numeral of any 32-bit value, at most ten digits |
| Responses.BuildResponse | solutions/c-epoll/server.c:505-517 | writes the framed response without leaving the 8192-byte buffer |
| Responses.BuildEmptyResponse | solutions/c-epoll/server.c:519-524 | writes the body-less response within the buffer |
| ResponseStream.AnswerIsRead | solutions/c-epoll/server.c:478-531 | a client reading up to the first blank line and then the announced number of bytes gets exactly the status and body of any answer, with a body, without one, or the health response, whatever follows |
| ResponseStream.AnswersAreRead | solutions/c-epoll/server.c:505-531 | a client splits the bytes of any sequence of answers into one message each, in order, with nothing left over |
| ResponseStream.AnswerHeaders | solutions/c-epoll/server.c:478-531 | every answer keeps the connection alive in its headers and announces a body as JSON |
| RequestLoop.Dispatch | solutions/c-epoll/server.c:689-699 | every request gets the answer and the new store its verb, path and body call for; a listing is in slot order |
| RequestLoop.AnswersFit | solutions/c-epoll/server.c:505-524 | in every state with bounded names every answer fits the buffers |
| RequestLoop.Process | solutions/c-epoll/server.c:814 | the bytes in the response buffer are the text of the right answer |
| Connections.Connection.Consume | solutions/c-epoll/server.c:816-819 | the unread rest moves to the front of the buffer unchanged |
| Connections.Connection.AnswerFirst | solutions/c-epoll/server.c:809-819 | one round answers the first request iff it is complete, from the store as it is then, whoever has changed it, and takes exactly its bytes off the buffer |
| Connections.Connection.Drain | solutions/c-epoll/server.c:809-841 | on a connection alone, all complete requests are answered in order through the single-map store; the incomplete rest stays |
| Connections.Connection.Receive | solutions/c-epoll/server.c:807-854 | on a connection alone, one receive does what the connection model says, closing exactly on a full buffer, and sends the bytes of that session |
| Connections.Connection.Serve | solutions/c-epoll/server.c:806-855 | on a connection alone, the read loop over any number of chunks ends as the connection model's run, having answered its requests in one session with the single-map store |
| Connections.SessionAppend | solutions/c-epoll/server.c:806-855 | two sessions in succession are one session of the single-map store |
| Connections.SessionTenure | solutions/c-epoll/server.c:550-632 | in a session, of one connection or of all together, a holder loses its key only by its own unlock request or another's forced lock request |
| Schedules.SeenDrains | solutions/c-epoll/server.c:806-855 | after any turns of its own, what a connection has answered and what it has unread are what draining the bytes it received gives |
| Schedules.FrameReached | solutions/c-epoll/server.c:806-855 | after any turns of its own, a connection has answered exactly the first k of its client's requests and holds a prefix of the rest |
| Schedules.AnsweredInOrder | solutions/c-epoll/server.c:806-855 | whatever the schedule, a client's requests are answered in order and nothing else is |
| Schedules.AnsweredIffEachFits | solutions/c-epoll/server.c:806-855 | given enough rounds of receiving and answering, mixed with any other turns, all of a client's requests are answered iff each fits the read buffer, and then nothing is left over |
| ManyConnections.ServeAll | solutions/c-epoll/server.c:703-855 | for any number of connections and any schedule of receives and answers, all exchanges are one session with the single-map store, and every connection has received, answered, left unread and been sent exactly what its own turns make of its client's bytes |
| ClientView.SessionIsSound | solutions/c-epoll/server.c:505-531 | whatever is asked in a session, every answer fits its buffers |
| ClientView.EachClientReadsItsOwn | solutions/c-epoll/server.c:806-855 | among any number of connections each client reads exactly one message for each of its own exchanges, in order |
| ClientView.TenureAcrossConnections | solutions/c-epoll/server.c:550-632 | whoever is served in between, on whatever connection, a holder loses its key only by its own unlock or another's forced lock |
| ClientView.EveryClientIsServed | solutions/c-epoll/server.c:806-855 | whatever the schedule, each client's requests are answered in order from the common session and read back one message each, and with enough rounds all of them are iff each fits the read buffer |
| AnswerReading.LockTold | solutions/c-epoll/server.c:581-601 | the client reads 200 OK with locked true, the key and itself as lockee iff the key was free, its own or taken by force, and then holds it; otherwise 409 Conflict with locked false and the current holder, and nothing has changed |
| AnswerReading.UnlockTold | solutions/c-epoll/server.c:634-640 | the client reads 200 iff it held the key, which is then free; 404 iff the key was free; 403 iff another holds it, and then nothing has changed |
| AnswerReading.ExchangeTold | solutions/c-epoll/server.c:689-699 | the bytes of every reply are one response with the right headers that tells the client what happened to the store: lock, unlock, listing, health check, refused body or unknown path |
| AnswerReading.SessionTold | solutions/c-epoll/server.c:806-855 | in every session that starts from storable names every reply does so |
| AnswerReading.NeverBothLocked | solutions/c-epoll/server.c:550-632 | if one client reads that it has locked a key and later another reads so of the same key, then an unlock by the first or a forced lock came in between |
| EndToEnd.PlainCallIsGood | solutions/c-epoll/server.c:331-463 | plainly printed calls with any quote-free names up to a thousand bytes are among the calls covered |
| EndToEnd.ExchangeOfCall | solutions/c-epoll/server.c:689-699 | a printed lock or unlock call is the store's step on the names it prints, cut, and its reply tells the client the outcome |
| EndToEnd.SessionMeans | solutions/c-epoll/server.c:806-855 | a session on printed calls is the single-map run of their operations; a client reads one message for each, and each tells it what its operation did to the store |
| EndToEnd.Converse | solutions/c-epoll/server.c:806-855 | on a connection alone, lock and unlock calls sent back to back in any chunks act on the single-map store in order, the connection stays open, and the bytes sent back split into one message for each that tells its outcome |
| EndToEnd.ConverseFreely | solutions/c-epoll/server.c:806-855 | on a connection alone, the same for any well-formed requests, listings, health checks and refused bodies included |
| EndToEnd.ServeClients | solutions/c-epoll/server.c:703-855 | many clients at once, each with any well-formed requests on its own connection and any schedule: one session with the single-map store in which every client is served as it should be and told what happened |
| HttpParse.EndpointIff | solutions/c-epoll/server.c:331-364 | a complete request is for an endpoint iff the text between its first two spaces is one of that endpoint's spellings, and its first byte is the method |
| HttpParse.ParseExtends | solutions/c-epoll/server.c:331-406 | a positive answer on a prefix is the same on every extension |
| HttpParse.FindHeaderEnd | solutions/c-epoll/server.c:366-374 | the loop finds the first blank line |
| HttpParse.ScanContentLength | solutions/c-epoll/server.c:378-398 | the line loop finds the announced length, with 32-bit wrap-around |
| HttpParse.ParseRequest | solutions/c-epoll/server.c:331-406 | the step-by-step parser computes the parse function |
| HttpRoundTrip.HeaderEndFound | solutions/c-epoll/server.c:366-376 | for any non-empty header lines the search stops at the blank line behind them |
| HttpRoundTrip.LineFound | solutions/c-epoll/server.c:385-397 | the header scan returns the first recognised line wherever it stands |
| HttpRoundTrip.WireIsParsed | solutions/c-epoll/server.c:331-406 | a well-formed GET or POST at the front of the buffer, with either spelling of its length header, is recognised with its target, body and length, whatever follows |
| HttpRoundTrip.PipelineRecovered | solutions/c-epoll/server.c:806-855 | pipelined requests in any chunks: the connection stays open iff none is longer than the read buffer, and then all come out in order with their bodies and nothing left over |
| ConnectionModel.DrainCompose | solutions/c-epoll/server.c:809-841 | draining a prefix first and the rest later makes no difference |
| ConnectionModel.NoReadPastFull | solutions/c-epoll/server.c:844-853 | no way of receiving reads past a prefix that fills the buffer |
| ConnectionModel.StableParserChunks | solutions/c-epoll/server.c:806-855 | chunk independence for every parser whose positive answers persist |
| ConnectionModel.ChunkIndependence | solutions/c-epoll/server.c:806-855 | however a stream is split, the same requests are handled, the same bytes stay unread, and the connection closes on a full buffer in the same cases |
| ConnectionModel.DeliveredIffEachFits | solutions/c-epoll/server.c:806-855 | for every stable parser a pipelined stream is handled completely iff each request fits the buffer; otherwise every way of receiving it closes the connection |
| JsonRequest.ParseJsonBody | solutions/c-epoll/server.c:418-463 | the scanning loop computes the scan function and fails without a non-empty key |
| JsonRoundTrip.ObjectRecovered | solutions/c-epoll/server.c:426-460 | any list of printed members, known or not, in any order, with any whitespace between tokens, is taken member by member: read, skipped, or swallowed by the string before it |
| JsonRoundTrip.RequestRoundTrip | solutions/c-epoll/server.c:418-463 | for any members in any order with any whitespace: refused iff no non-empty key is seen; otherwise every field seen comes back and only those, a true force iff no line break follows its own colon |
| JsonRoundTrip.AllSeenIff | solutions/c-epoll/server.c:452-456 | the scanner keeps its place before every member iff no ignored member with another behind it has a comma or closing brace in its string |
| JsonRoundTrip.RemarkHidesKey | solutions/c-epoll/server.c:452-456 | valid bodies that are refused because a remark with a comma hides the key |
| JsonRoundTrip.SpacedKeyIsRefused | solutions/c-epoll/server.c:428-438 | valid bodies that are refused because whitespace precedes the colon of the key |
| JsonRoundTrip.ForceBehindNewlineIsLost | solutions/c-epoll/server.c:447-451 | valid bodies whose force is not seen |
| RequestMeaning.BodyDecoded | solutions/c-epoll/server.c:533-541 | a printed lock or unlock body stands for the operation on its names, cut, with or without a force member |
| RequestMeaning.BodyRefusedIff | solutions/c-epoll/server.c:533-538 | a printed body gets 400 iff no non-empty key or no lockee is seen in it |
| RequestMeaning.EmptyLockeeAccepted | solutions/c-epoll/server.c:533-538 | the empty lockee is granted a free key |
| RequestMeaning.NamesKeptIff | solutions/c-epoll/server.c:540-541 | a request keeps its key iff it has at most 127 bytes and its lockee iff it has at most 63 |
| RequestMeaning.BlockedIff | solutions/c-epoll/server.c:540-579 | a lock on one key refuses another key to another lockee iff the keys agree on the bytes kept and the lockees do not |
| RequestMeaning.SharedIff | solutions/c-epoll/server.c:540-579 | another lockee is granted a held lock, and can release it, iff the two lockees agree on the bytes kept |
| RequestMeaning.LongKeysShareALock | solutions/c-epoll/server.c:533-579 | printed lock requests for two different keys of which the first refuses the second |
| RequestMeaning.LongLockeesShareALock | solutions/c-epoll/server.c:533-632 | printed requests of two different lockees that hold and release one lock together |
| Civil.FromDaysByLoops | solutions/c-epoll/server.c:263-280 | the year and month loops give the calendar date of every non-negative day count, and say what a negative one gives |
| Civil.DatesAreOrdered | solutions/c-epoll/server.c:250-280 | later dates have larger day numbers; a day has one date |
| Civil.YearOfEraSpan | solutions/zig-inmemory/src/main.zig:136-141 | the year-of-era formula picks the year whose span contains the day |
| Civil.MonthOfYear | solutions/zig-inmemory/src/main.zig:142-143 | the month formula picks the month whose span contains the day |
| Civil.ClosedFormCorrect | solutions/zig-inmemory/src/main.zig:135-145 | the closed form gives the calendar date of every day, before 1970 too |
| Timestamp.ComputeFields | solutions/c-epoll/server.c:258-280 | the six fields of any 64-bit time, truncation before 1970 and the cast to int included |
| Timestamp.CAndZigAgree | solutions/zig-inmemory/src/main.zig:123-145 | for every 64-bit time, the C and Zig fields are equal iff it is not before 1970 and its day number fits a 32-bit int |
| Timestamp.FieldsBefore1970 | solutions/c-epoll/server.c:258-280 | before 1970 the C fields are the negated counts of whole days, hours, minutes and seconds, all in January 1970 |
| Timestamp.ZigFieldsAreRight | solutions/zig-inmemory/src/main.zig:123-145 | for every time the Zig fields are in range and name that instant by the calendar |
| Timestamp.Format | solutions/c-epoll/server.c:257-304 | writes exactly the 20 characters of any 64-bit time and the terminator |
| Timestamp.TimestampRoundTrip | solutions/c-epoll/server.c:257-304 | a time is printed with digits and separators where RFC 3339 has them and valid fields that read back to it iff it lies between 1970 and the end of 9999 |
| Timestamp.StringOrderIsTimeOrder | solutions/c-epoll/server.c:282-303 | comparing two timestamps as strings compares the instants |
| ShardedStore.SplitStep | solutions/go-sharded/main.go:41-83 | for any hash function a request on its shard gives the single map's answer and keeps the shards a split of its store |
| ShardedStore.ShardedRunRefines | solutions/go-sharded/main.go:41-83 | for any hash function and any run the sharded store gives the single map's replies and ends as a split of its state |
| ShardedStore.GoShardedStore.Acquire | solutions/go-sharded/main.go:41-64 | answers as the single-map acquire |
| ShardedStore.GoShardedStore.Release | solutions/go-sharded/main.go:66-83 | answers as the single-map release |
| ShardedStore.GoShardedStore.List | solutions/go-sharded/main.go:85-95 | alone, the shard-by-shard listing lists the single map |
| ShardedListing.InvariantHolds | solutions/go-sharded/main.go:85-95 | after any number of interleaved steps: no duplicates, everything seen was held, spanning tenures of visited shards are in |
| ShardedListing.ListingGuarantee | solutions/go-sharded/main.go:85-95 | for any number of shards, a finished concurrent listing has no key twice, only entries held at some instant of the call, and every tenure that spans it |
| ShardedListing.OneShardIsSnapshot | solutions/go-sharded/main.go:85-95 | while requests fall in one shard only, the finished listing is the whole store at some instant of the call |
| ShardedListing.ListingIsNoSnapshot | solutions/go-sharded/main.go:85-95 | for any hash and two keys of different shards, a run touching only these shards lists nothing although some lock is held at every instant |
| ShardedListing.SnapshotIff | solutions/go-sharded/main.go:41-95 | every listing is a snapshot iff at most one shard can be touched during the call |
| EventLoop.LockService.Handle | solutions/dotnet-eventloop/src/LockService.cs:47-127 | one message is the single map's step on its operation and is answered by that step's reply; a listing lists the map and changes nothing |
| EventLoop.StepKeeps | solutions/dotnet-eventloop/src/LockService.cs:42-163 | every step of callers and loop keeps the invariant; a completion source is never set twice |
| EventLoop.MessagesCarried | solutions/dotnet-eventloop/src/LockService.cs:130-163 | wherever a message is, it is the one its caller submitted in an earlier call |
| EventLoop.CalledOnce | solutions/dotnet-eventloop/src/LockService.cs:130-163 | no two calls share a completion source |
| EventLoop.HandledInWriteOrder | solutions/dotnet-eventloop/src/LockService.cs:42-163 | the messages handled and then those queued are the writes in order |
| EventLoop.Linearizable | solutions/dotnet-eventloop/src/LockService.cs:42-163 | in every run the channel holds at most 100 messages, they are handled in write order as submitted, the dictionary is the single map after their operations, and every result is the single map's reply at its place in that run |
| EventLoop.RealTimeOrder | solutions/dotnet-eventloop/src/LockService.cs:130-163 | a call that returned before another began is handled before it |
| EventLoopProgress.WritesIff | solutions/dotnet-eventloop/src/LockService.cs:42-43 | a caller can write iff it waits to and the channel holds fewer than 100 messages |
| EventLoopProgress.NeverStuck | solutions/dotnet-eventloop/src/LockService.cs:42-163 | in every run, while some call has not come back, a step of a caller or of the loop is possible |
| EventLoopProgress.AllBackIff | solutions/dotnet-eventloop/src/LockService.cs:42-163 | in every run all calls have come back iff three steps besides the call have been made for each, and never more are |
| ZigStore.OwnedMeans | solutions/zig-inmemory/src/main.zig:7-21 | ownership: live blocks are exactly the entries' strings and none is shared |
| ZigStore.Shard.Free | solutions/zig-inmemory/src/main.zig:95-96 | only live blocks are freed |
| ZigStore.Shard.CopyStrings | solutions/zig-inmemory/src/main.zig:71-80 | a failing allocation leaves the heap as it was |
| ZigStore.Shard.Acquire | solutions/zig-inmemory/src/main.zig:43-82 | for every combination of failures ownership is kept; success is the single-map acquire; failure changes nothing, except that a forced takeover loses the old entry; and it fails iff one of the allocations on its path does |
| ZigStore.Shard.Release | solutions/zig-inmemory/src/main.zig:84-98 | the single-map release, freeing exactly the entry's blocks |
| ZigJson.WriteJsonString | solutions/zig-inmemory/src/main.zig:323-336 | the loop appends the quoted and escaped string |
| ZigJson.EscapedIsEscape | solutions/zig-inmemory/src/main.zig:323-336 | every byte is written as itself or by the escape that JSON has for it |
| ZigJson.QuotedIsRead | solutions/zig-inmemory/src/main.zig:323-336 | a reader of JSON strings gets every string back and stops behind its closing quote |
| ZigJson.QuotedPrefixFree | solutions/zig-inmemory/src/main.zig:323-336 | quoted strings are an injective prefix-free code on all byte strings |
| ZigJson.WriteList | solutions/zig-inmemory/src/main.zig:292-319 | the loop writes the listing text |
| ZigJson.ListIsRead | solutions/zig-inmemory/src/main.zig:292-319 | a client that reads the body by its member names gets exactly the listed keys, lockees and timestamps back |
| ZigJson.ListDetermines | solutions/zig-inmemory/src/main.zig:292-319 | two listings have the same body iff they list the same keys, lockees and timestamps in the same order |
| Workers.MakeKeys | benchmark/scenarios.go:438-449 | the worker's slice of the key space, at least one key |
| Workers.SlicesFillPool | benchmark/scenarios.go:148-159 | slices are consecutive, stay within a pool of at least one key per worker and could not be larger; in a smaller pool each worker has one key |
| Workers.KeysInTurn | benchmark/scenarios.go:53 | a worker goes through its slice in turn |
| Workers.KeysAreDisjoint | benchmark/scenarios.go:148-159 | two workers never share a key, for every pool size and worker count |
| Workers.StepKeeps | benchmark/scenarios.go:45-107 | every step of workers, server and phases keeps the account of keys that may be left held; a request may be carried out before or after it fails |
| Workers.LeaksAtMostOneEachPhase | benchmark/scenarios.go:184-222 | over any number of phases there is no conflict, and at every instant at most one key per worker and phase is held beyond the start, plus one for each earlier acquire still under way |
| Workers.RecountStep | benchmark/scenarios.go:45-107 | what workers and server do depends neither on the account of earlier leaks nor on the number of the phase |
| Workers.EveryPhaseGains | benchmark/scenarios.go:184-222 | from the beginning of any phase of a run on, at most one key per worker and phase is gained, plus one for each acquire then under way |
| PhaseGains.LateAcquireArises | benchmark/scenarios.go:45-107 | from an idle server a run leads to a phase that starts with a late acquire under way |
| PhaseGains.LateAcquireGains | benchmark/scenarios.go:45-107 | for any number of workers with more than one key each, one late acquire makes a phase gain one key too many |
| PhaseGains.GainsAtMostOneEachIff | benchmark/scenarios.go:45-107 | a phase is sure to gain at most one key per worker iff no acquire of an earlier phase is under way or each worker has one key only |

## Left out

- ProbeTable.Home: `hash & mask` is modelled as a remainder, which is the same for power-of-two capacities; 32-bit overflow of capacity and count (beyond a billion entries in one shard) is not modelled.
- JsonRoundTrip.RequestRoundTrip: strings with escapes, members whose value is an object or a list, and further names with a comma or brace in them are not printed here; the scanner neither unescapes nor nests.
- AnswerReading.SessionTold: assumes a store without quotes in its names, which every session from an empty server keeps (`ListingReadback.AnswersKeepUnquoted`).
- HttpParse.ScanContentLength: signed overflow is undefined in C; the model wraps around, which makes the parser total.
- ConnectionModel.ChunkIndependence: one connection, with every send completing; the would-block send path is not modelled.
- Connections.Connection.Drain: one connection at a time; `ManyConnections` has no such restriction.
- Connections.Connection.Receive: one connection at a time; `ManyConnections` has no such restriction.
- Connections.Connection.Serve: one connection at a time; `ManyConnections` has no such restriction.
- EndToEnd.Converse: no other client meanwhile; `EndToEnd.ServeClients` has no such restriction.
- EndToEnd.ConverseFreely: no other client meanwhile; `EndToEnd.ServeClients` has no such restriction.
- ManyConnections.ServeAll: each answer is one atomic exchange; for a listing, which locks one shard after the other, `ConcurrentListing` gives the guarantee without that assumption.
- ZigStore.Shard.Acquire: one shard; the map's own storage is not tracked, only whether its insertion fails.
- ZigJson.ListDetermines: timestamps are given as text without quotes; the standard library's formatting is not modelled.
- ZigJson.ListIsRead: likewise.
- EventLoopProgress.AllBackIff: stopping the service is not modelled.
- EventLoop.Linearizable: stopping the service is not modelled; the channel is first in, first out and makes writers wait when full.
- Sockets, epoll registration, accepting, threads, containers and reporting: input and output plumbing.
- The wyhash and rapidhash functions: any function of the key will do.
- The Bun, .NET in-memory and Zap servers: the same state machine over library maps.
