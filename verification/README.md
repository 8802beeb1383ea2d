# nmdb: a verified model

nmdb is a key/value server with two threads. The main thread decodes messages,
answers what it can from a hashed cache, updates the cache at once and puts what
concerns the database on a FIFO queue. The database thread takes operations off
that queue and applies them to a backend. Clients talk to it over framed TCP and
choose among several servers by a checksum of the key.

The project models these parts, each in the form its source has, and proves that
together they behave, for every client, like one map.

| file | what it holds |
|---|---|
| `Bytes.dfy` | bytes, network byte order, 64-bit registers |
| `Decimal.dfy` | `strtoll()`, `"%23lld"` and the increment of a stored value |
| `RecentList.dfy`, `CacheModel.dfy` | the abstract cache, and recency over whole runs |
| `Cache.dfy` | the cache: chains linked through fixed arrays, proved to refine the abstract one |
| `Queue.dfy` | the linked queue |
| `Protocol.dfy` | the two threads as a state machine |
| `Linear.dfy` | the one sequential map, and the invariant that ties the two threads to it |
| `Guarantees.dfy`, `Interleaving.dfy` | what follows for whole runs |
| `Cached.dfy` | what is answered at once, request by request, and for how long a key is served from the cache |
| `Server.dfy` | the handlers and the database loop, proved to take exactly the steps of `Protocol.dfy` |
| `Wire.dfy`, `Packets.dfy`, `Replies.dfy` | request and reply formats, both sides |
| `Framing.dfy`, `TcpSocket.dfy`, `Socket.dfy` | cutting a TCP stream back into messages |
| `Servers.dfy` | the sorted server array, the key checksum, the choice |
| `EndToEnd.dfy` | the parts composed, from a call to its return value |

What is assumed: allocation succeeds; the backend is an ideal map whose
operations succeed and whose initial values are at most 64 KiB; the host is
little-endian; the hash function is any function of the key. A run is any
interleaving of arriving messages and turns of the database thread.
"Fair" traffic has no cache-only set, cas or incr, which the library documents
as a source of inconsistency; cache-only get and del are allowed in it.

Where the code and its documentation disagree, the model follows the code:

- doc/design.rst:173-174 says that a lookup promotes the entry. The code
  promotes only on set, so recency is recency of the last set.
- nmdb/tcp.c:448 hands the length of the frame just consumed to the recursive
  call, where the count of the bytes left over, saved at line 443, is meant.
  `Framing.Process` and `TcpSocket.ProcessBuf` have both readings, `AsWritten`
  and `AsIntended`. Framing independence is proved for the intended one. For the
  code as written, `Framing.AsWrittenLosesTheStream` is a concrete failure,
  `Framing.AsWrittenIsRightWhen` and `Framing.TwoRequestsAtOnce` say exactly when
  a read of a frame with at most one more behind it is handled rightly, and
  `Framing.AsWrittenWhenHalving` gives a condition for any read. A client that
  waits for each reply, as the library does, always meets it.
- nmdb/parse.c:170-177 answers a message of another version with the identifier
  in host order. `Wire.ReplyIdIsTheOneSent` says exactly when that is the
  identifier sent, and `Wire.VersionReplyLosesTheId` is a concrete failure.
- libnmdb/libnmdb.c:223-231 cites RFC 1071, but the walk advances one byte for
  each two that it accounts for; `Servers.ChoiceIgnoresSecondHalf` says what
  that leaves out.
- doc/design.rst:33-36 says that sizes must be below 64 KiB; the code accepts
  65536, and so does the model.

## Model

| member | source | states |
|---|---|---|
| Guarantees.Linearizable | nmdb/parse.c:235-542 | for every interleaving, every reply is the one a single map gives when it runs the messages in arrival order |
| Guarantees.CacheIsCoherent | nmdb/parse.c:311-340 | in every reachable state a cached key holds what replaying the whole queue on the backend gives, and that replay is the sequential map |
| Guarantees.WritesLandInOrder | nmdb/dbloop.c:105-146 | an entry meets the backend exactly as the map was when its message arrived and leaves it as that message left the map, so a synchronous reply confirms a stored write |
| Guarantees.ReadsSeeTheLatestWrite | libnmdb/nmdb.h:112-115 | in every run, a get that arrives after a set is answered with the value set, and after a del with a miss, even if the write has not reached the backend |
| Guarantees.SyncReplyMeansStored | libnmdb/nmdb.h:129-133 | in every run, once a synchronous set or del was answered the backend is the map of a history that includes the write |
| Guarantees.CasIsCommitted | nmdb/parse.c:438-470 | a swap the cache accepted is answered with success, whatever is queued or comes later |
| Guarantees.CasRejectionIsRight | nmdb/parse.c:440-444 | a swap the cache rejects alone would be rejected by the backend after the queue is worked off |
| Guarantees.CacheOnlyKeepsCoherenceWhen | libnmdb/nmdb.h:143-153 | a cache-only request keeps cache and database in agreement if and only if it writes what the map already holds |
| Guarantees.CacheOnlySetMisleads | libnmdb/nmdb.h:143-153 | a concrete run in which a cache-only set makes a plain get return a value the database never had |
| Guarantees.OneReplyIsDue | nmdb/parse.c:149-542 | for any traffic, replies sent plus replies owed by queued entries are exactly one for each message received |
| Guarantees.ExactlyOneReply | nmdb/dbloop.c:105-276 | with the queue drained, each message received has exactly one reply |
| Guarantees.RepliesCarryOwnIds | nmdb/parse.c:188-194 | replies and queued entries carry the identifier of the message they belong to |
| Guarantees.ShutdownLosesNothing | nmdb/dbloop.c:60-102 | draining ends with an empty queue, the backend equal to the sequential map of every message accepted, and every message answered |
| Guarantees.PassiveActsTheSame | doc/design.rst:141-153 | a passive server reaches the same cache, queue and backend as an active one and sends nothing |
| Guarantees.CacheIncrementReadsInBounds | nmdb/cache.c:438-445 | if no increment meets an empty value of the map, the main thread never meets one in the cache |
| Guarantees.QueuedIncrementsReadInBounds | nmdb/dbloop.c:200-205 | nor does the database thread, by any entry of the queue |
| Interleaving.StepsCommute | nmdb/parse.c:117-119 | a message and a turn of the database thread give the same state in either order while something is queued |
| Cached.CacheOnlyAnswer | nmdb/parse.c:255-534 | each cache-only request is answered at once, with exactly the answer and the new cached value that the cached value before gives, and leaves queue and backend alone |
| Cached.DatabaseAnswer | nmdb/parse.c:255-540 | every other request waits for the database thread unless it is a hit or the cache rejects it, and only those and asynchronous writes are answered at once |
| Cached.RefusedWithoutATrace | nmdb/parse.c:175-215 | a refused message changes nothing and gets the error for its reason |
| Cached.RunIsCacheRun | nmdb/parse.c:235-542 | in any run the cache is what the messages alone make of it, one cache operation each, in order of arrival |
| Cached.SetKeyIsServed | nmdb/parse.c:255-272 | in any run, a get of a key that was set is a hit with the latest value, as long as it is not deleted and fewer than four other keys of its bucket are set |
| Cached.CacheOnlyGetIsExact | nmdb/parse.c:255-272 | without deletions, a cache-only get hits if and only if fewer than four were set since |
| Linear.RunIsSequential | nmdb/dbloop.c:105-229 | the invariant of all runs: coherence, replies, and each queued entry aligned with the map its message met |
| Linear.MainStepIsSequential | nmdb/parse.c:235-542 | handling any fair message keeps that invariant |
| Linear.DbStepIsSequential | nmdb/dbloop.c:105-229 | so does a turn of the database thread |
| Linear.BackendIsTheMap | nmdb/dbloop.c:105-229 | on the map a request met, the backend does and answers what the map does, with the reply codes of the database |
| Linear.CacheStaysCoherent | nmdb/parse.c:311-340 | after any fair message each cached value is the new map's value |
| Linear.CacheAnswersAgree | nmdb/parse.c:255-272 | an answer given from the cache agrees with the map; which answer it is exactly, Cached.CacheOnlyAnswer and Cached.DatabaseAnswer say |
| Linear.HandleAdds | nmdb/parse.c:235-542 | a message adds at most one reply and one entry, and is answered now or owed an answer |
| Server.Server.ParseMessage | nmdb/parse.c:149-218 | decoding and handling a message is one main-thread step, and only another version ends the connection |
| Server.Server.ParseGet | nmdb/parse.c:235-273 | get from the cache, or queue, or report a miss: the whole new state |
| Server.Server.ParseSet | nmdb/parse.c:275-340 | set: the whole new state, with read-only, cache-only and sync cases |
| Server.Server.ParseDel | nmdb/parse.c:343-388 | del: the whole new state |
| Server.Server.ParseCas | nmdb/parse.c:390-472 | compare-and-swap: the whole new state |
| Server.Server.ParseIncr | nmdb/parse.c:474-542 | increment: the whole new state |
| Server.Server.PutInQueue | nmdb/parse.c:104-131 | one entry for the message goes to the end of the queue |
| Server.Server.ProcessOp | nmdb/dbloop.c:105-229 | one queued operation on the backend: its effect, and its answer if one is owed |
| Server.Server.ProcessCas | nmdb/dbloop.c:148-181 | compare and swap on the backend through a 64 KiB buffer |
| Server.Server.ProcessIncr | nmdb/dbloop.c:183-229 | increment on the backend through a 64 KiB buffer |
| Server.Server.DbLoopRound | nmdb/dbloop.c:84-99 | one round is one database step, and the loop ends only on an empty queue with the stop flag set |
| Server.Server.DbLoop | nmdb/dbloop.c:51-103 | the stopped loop ends, and leaves the drained state |
| Server.IncrBuffer | nmdb/dbloop.c:200-217 | the in-place increment in a larger buffer is the increment of the stored value, whatever lies behind it |
| Cache.NewText | nmdb/cache.c:438-463 | the cache's increment of the same bytes gives the same verdict, number and bytes |
| Decimal.StrtollStopsAtNul | nmdb/dbloop.c:200-208 | what lies behind the terminating NUL never changes the number read |
| Decimal.EveryTextHasParts | nmdb/cache.c:447-447 | every text is blanks, at most one sign, digits and a rest that is none of these |
| Decimal.StrtollIsPositional | nmdb/cache.c:447-447 | the number read is the sum of the digits times their powers of ten, with the sign, and the nearest limit when it leaves 64 bits |
| Decimal.CounterReadsBack | nmdb/dbloop.c:207-208 | a number kept as plain text, with any number of blanks before it or none, reads as that number |
| Decimal.CounterIncrements | nmdb/cache.c:447-462 | incrementing such a text reports and stores the sum |
| Decimal.TextIsCanonical | nmdb/cache.c:462-462 | a number is printed as its digits without leading zeros, behind a minus sign just when it is negative |
| Decimal.TextFits | nmdb/cache.c:450-462 | every 64-bit number takes at most 20 of the 23 columns |
| Decimal.PrintedNumberReadsBack | nmdb/cache.c:447-462 | the printed field reads back as the same number |
| Decimal.IncrementedValueReadsBack | nmdb/cache.c:441-465 | an increment is refused exactly without a NUL at the end; otherwise the first 24 bytes are the sum, right-justified, and a NUL, the rest stays, and the value reads as the number reported |
| Decimal.IncrementsCompose | nmdb/cache.c:441-465 | any run of increments adds up, exactly unless the sum leaves 64 bits |
| Cache.Chain.Set | nmdb/cache.c:258-327 | put in front, drop the old, keep four, with all links, sizes and the length consistent |
| Cache.Chain.InsertInFullChain | nmdb/cache.c:199-255 | evicts the last entry and reuses it in front |
| Cache.Chain.Promote | nmdb/cache.c:311-324 | moves a linked entry to the front, the others in their order |
| Cache.Chain.Link | nmdb/cache.c:282-294 | links a fresh entry in front |
| Cache.Chain.NewEntry | nmdb/cache.c:165-197 | fills an unused entry and touches no other |
| Cache.Chain.Del | nmdb/cache.c:330-370 | drops the key and says whether it was there |
| Cache.Chain.Unlink | nmdb/cache.c:348-366 | takes a linked entry out and frees it |
| Cache.Chain.AllocEntry | nmdb/cache.c:85-95 | finds an unused entry if and only if fewer than four are linked |
| Cache.Chain.FindInChain | nmdb/cache.c:108-124 | finds the entry of a key if and only if it is listed |
| Cache.Chain.Cas | nmdb/cache.c:376-410 | the three return codes, and the new value in place |
| Cache.Chain.Incr | nmdb/cache.c:425-466 | the three return codes, the number, and the new value in place |
| Cache.LinkedAndUnusedMakeFour | nmdb/cache.c:42-55 | linked and unused entries of a chain are always four |
| Cache.Cache.constructor | nmdb/cache.c:17-58 | an empty table with one bucket for each four objects |
| Cache.Cache.Get | nmdb/cache.c:145-162 | a lookup is the abstract lookup and changes nothing |
| Cache.Cache.Set | nmdb/cache.c:258-327 | the whole table is the abstract table with the key set |
| Cache.Cache.Del | nmdb/cache.c:330-370 | the whole table is the abstract table without the key |
| Cache.Cache.Cas | nmdb/cache.c:376-410 | the whole table after a compare-and-swap |
| Cache.Cache.Incr | nmdb/cache.c:425-466 | the whole table after an increment |
| CacheModel.SetKeyIsKept | nmdb/cache.c:258-327 | over any run, a key set and not deleted is found with its latest value unless four other keys, whose hashes leave the same remainder, were set since, and its position is at most their number |
| CacheModel.EvictionIsExact | nmdb/cache.c:258-327 | without deletions it is found if and only if fewer than four were, and its position is their number |
| CacheModel.OtherBucketsDoNotMatter | nmdb/cache.c:136-139 | operations on keys whose hashes leave other remainders change neither what is cached of a key nor its place |
| CacheModel.ValueOverRun | nmdb/cache.c:145-466 | over any run, a key that is found has the value that a map without eviction would have |
| CacheModel.OnlySetAndDelReorder | nmdb/cache.c:376-466 | get, cas and incr never change the order of any bucket |
| CacheModel.OpKeepsPlaced | nmdb/cache.c:258-370 | every operation keeps keys distinct, at most four to a bucket, and in the bucket they hash to |
| RecentList.PutPushesBack | nmdb/cache.c:199-244 | setting a key pushes another out exactly when four keys would stand before it |
| Queue.Queue.Put | nmdb/queue.c:112-122 | adds the entry at the end, links and size consistent |
| Queue.Queue.Get | nmdb/queue.c:124-140 | takes the oldest entry, links and size consistent |
| Queue.Queue.IsEmpty | nmdb/queue.c:142-145 | the size is zero if and only if nothing is queued |
| Queue.FirstInFirstOut | nmdb/queue.c:112-140 | over any run, what was taken and what is left is what was put, in order |
| Wire.RequestRoundTrip | libnmdb/libnmdb.c:256-322 | every encodable request decodes to itself, identifier and flags included, if its sizes fit and is called broken if they do not |
| Wire.RequestLayout | doc/network.rst:27-52 | version, identifier, command and flags stand where the protocol says, in network byte order |
| Wire.PayloadLayout | doc/network.rst:91-107 | so do the sizes, the key, the values and the increment |
| Wire.RefusedJustWhen | nmdb/parse.c:175-215 | any bytes are refused exactly when the version is another, the command does not exist, or the sizes are wrong, and as that |
| Wire.DecodedIsEncoded | nmdb/parse.c:164-194 | any bytes that decode to a request begin with exactly what a client writes for it |
| Wire.SetRoundTrip | nmdb/parse.c:288-315 | the same for the body of a set |
| Wire.CasRoundTrip | nmdb/parse.c:405-436 | the same for the body of a compare-and-swap |
| Wire.IncrRoundTrip | nmdb/parse.c:487-508 | the same for the body of an increment |
| Wire.DecodedIsSized | nmdb/parse.c:293-304 | whatever bytes come in, a decoded value is within the size limit |
| Wire.ReplyIdIsTheOneSent | nmdb/parse.c:164-190 | the reply's identifier is the one sent if and only if the version is right or the identifier reads the same from both ends |
| Wire.VersionReplyLosesTheId | nmdb/parse.c:170-177 | a concrete message answered with another identifier |
| Wire.HtonlIsNetworkOrder | nmdb/netutils.c:26-28 | the 32-bit swap leaves big-endian bytes in memory and undoes itself |
| Wire.HtonllIsNetworkOrder | nmdb/netutils.c:8-52 | htonll() leaves the big-endian number in memory and ntohll() takes it back |
| Bytes.WrittenInNetworkOrder | libnmdb/libnmdb.c:278-280 | fields of 2, 4 and 8 bytes are written most significant byte first |
| Bytes.ReadInNetworkOrder | nmdb/parse.c:164-173 | and read so, wherever they stand |
| Packets.Mask | libnmdb/libnmdb.c:405-405 | of the flags a call sends cache-only as it is, sync only for set and del, and no others |
| Packets.Build | libnmdb/libnmdb.c:256-322 | the client's buffer holds the encoded request at transport offset 0 or 4 |
| Packets.TcpRequest | libnmdb/tcp.c:106-118 | exactly one frame around the encoded request is sent |
| Framing.FramesComeBack | nmdb/tcp.c:375-464 | any sequence of acceptable messages, framed and concatenated, is delivered as exactly those messages |
| Framing.EveryStreamIsRead | nmdb/tcp.c:375-440 | any bytes at all are some framed messages and a rest: exactly those are delivered, and the rest waits or closes the connection for a length out of bounds or another version |
| Framing.CutsDoNotMatter | nmdb/tcp.c:394-414 | cutting the stream anywhere changes neither what is delivered nor what is left |
| Framing.PartialIsBounded | nmdb/tcp.c:380-414 | while a frame is incomplete, fewer bytes wait than are wanted, at most 64 KiB |
| Framing.IntendedIsDeframe | nmdb/tcp.c:375-464 | processing a buffer as intended is reading the stream it holds |
| Framing.AsWrittenWhenHalving | nmdb/tcp.c:442-448 | the code as written agrees when each frame is as long as all that follows it, or nothing follows |
| Framing.AsWrittenIsRightWhen | nmdb/tcp.c:442-448 | with a frame and at most one more, it agrees if and only if nothing follows or as many bytes as the frame has |
| Framing.TwoRequestsAtOnce | nmdb/tcp.c:442-448 | two requests in one read come out right if and only if they have the same length |
| Framing.AsWrittenLosesTheStream | nmdb/tcp.c:448-448 | a concrete read that the code as written gets wrong |
| Framing.AsWrittenCanRecover | nmdb/tcp.c:448-448 | three frames for which it goes wrong and still comes out right |
| Framing.RefusedIsBadVersion | nmdb/parse.c:175-179 | a message ends the connection if and only if it decodes as another version |
| TcpSocket.TcpSocket.ProcessBuf | nmdb/tcp.c:375-472 | the in-place processing of a buffer, for the code as written and as intended |
| TcpSocket.TcpSocket.TcpRecv | nmdb/tcp.c:325-371 | one receive event continues the stream, for whatever portion the kernel hands over |
| TcpSocket.TcpSocket.ReceiveAll | nmdb/tcp.c:325-472 | all events of a stream, however cut, deliver what the stream alone determines |
| Socket.Connection.RecvAll | libnmdb/libnmdb.c:85-104 | reads exactly count bytes in order, however they are portioned |
| Socket.Connection.SendAll | libnmdb/libnmdb.c:107-126 | sends exactly the buffer, however the kernel takes it |
| Replies.ReplyMini | nmdb/tcp.c:148-165 | sends exactly the frame of a short reply |
| Replies.ReplyErr | nmdb/tcp.c:77-101 | sends exactly the frame of an error |
| Replies.ReplyLong | nmdb/tcp.c:173-211 | sends exactly the frame of a reply with a value |
| Replies.FrameFields | nmdb/tcp.c:77-211 | where length, identifier, code, error code, size and value stand in a reply |
| Replies.RecvMsg | libnmdb/tcp.c:120-154 | however one frame is cut, the buffer ends up with exactly it, or -1 is returned if it is too large |
| Replies.GetRep | libnmdb/tcp.c:158-183 | the code and payload of a frame with the client's identifier; any other is no reply |
| Replies.FinishGet | libnmdb/libnmdb.c:351-378 | a get returns the exact value and length, -1 for a miss, -2 for an error or a value too large |
| Replies.FinishWrite | libnmdb/libnmdb.c:422-434 | set and del return 1, 0 and below 0, cas returns 2, 1, 0 and below 0, each for exactly one reply |
| Replies.FinishIncr | libnmdb/libnmdb.c:618-643 | incr returns 2 with the number sent, 1, 0 or below 0, each for exactly one reply |
| Replies.ReplyFitsRequestBuffer | libnmdb/libnmdb.c:263-271 | the buffer of a request is large enough for any reply to it |
| Servers.CompareIsTotalOrder | libnmdb/libnmdb.c:29-80 | the comparison is a strict total order on identities |
| Servers.CompareIsPrecedence | libnmdb/libnmdb.c:29-80 | which of two servers comes first, by type, address and port |
| Servers.SortedIsUnique | libnmdb/tcp.c:64-66 | any sort of the same servers leaves the same array |
| Servers.Conn.Add | libnmdb/tcp.c:22-84 | a successful add keeps the array sorted and complete, a failed one changes nothing |
| Servers.Conn.Select | libnmdb/libnmdb.c:243-253 | none without servers, otherwise the one at the remainder of the complement of the folded key sum |
| Servers.ChoiceIgnoresAddOrder | libnmdb/libnmdb.c:243-253 | the order of adding does not change the server chosen for any key |
| Servers.Checksum | libnmdb/libnmdb.c:224-240 | the complement of a 16-bit number that is congruent to the weighted sum of the key's bytes modulo 0xFFFF and zero only for a zero sum |
| Servers.WalkIsKeySum | libnmdb/libnmdb.c:228-234 | the overlapping words add up to each byte of the first half counted 257 times, the first once and the middle one of an even key 256 times |
| Servers.FoldCarries | libnmdb/libnmdb.c:236-237 | the carry loop ends, at most 0xFFFF, congruent modulo 0xFFFF, zero only for zero |
| Servers.SumFits | libnmdb/libnmdb.c:226-234 | for keys up to 64 KiB the 32-bit sum never wraps |
| Servers.ChoiceIgnoresSecondHalf | libnmdb/libnmdb.c:228-231 | the bytes of a key behind its middle never affect the choice |
| EndToEnd.RequestsArriveIntact | nmdb/tcp.c:426-426 | the stream of any calls is delivered as their messages and each decodes to its call, with exactly the flags that mean something |
| EndToEnd.SyncCallWaits | libnmdb/libnmdb.c:405-453 | a synchronous set or del, as sent by its call, is not answered on arrival; the database thread owes the reply |
| EndToEnd.SyncCallMeansStored | libnmdb/nmdb.h:129-133 | and when it was answered, in whatever run, the backend has it |
| EndToEnd.RepliesAreProper | nmdb/dbloop.c:105-229 | for any traffic, each reply is of a kind the client's call knows |
| EndToEnd.CallsSeeOneMap | libnmdb/libnmdb.c:325-645 | each call returns what it returns on one sequential map |
| EndToEnd.CallsReturnAsDocumented | libnmdb/nmdb.h:82-257 | in every run, each call on the database returns the documented value for the map before it, and that map changes as documented |

## Left out

- The first-key, next-key and statistics requests: pass-through to the backend and counters. Decoding marks them as outside the model.
- The statistics counters of the other requests.
- UDP, SCTP and TIPC: the same messages without framing. Only the offset 0 of the request buffer is modelled.
- The backend adapters: replaced by an ideal map. Their error returns, and with them ERR_DB, do not occur.
- Allocation failure, and with it ERR_MEM and the error paths of the cache, which do not keep the chain invariants.
- Send and receive errors, end of file inside a reply, and the error reply to a failed send.
- The mutex, the condition variable and the failed wait: a put or a get is one step. That a turn of the other thread may fall inside a message's handling is covered by Interleaving.StepsCommute.
- Switching passive mode at run time: a run is passive or not.
- MurmurHash2: any function of the key stands for it.
- Aliasing of key and value buffers: keys and values of entries, queue items and replies are values, so the pointer into the cache that cache_get() hands out, and whether a buffer is reused or allocated anew, are not captured. The links, slots and connection buffers are updated in place.
- Server.Server.ParseMessage: requires that decoding stays inside the memory it is given. A message whose sizes lead the code to read past it is outside the model.
- Server.Server.ParseIncr: requires that the cached value is not empty, since the code reads the byte before an empty value; Guarantees.CacheIncrementReadsInBounds says when that holds in every run.
- Decimal.IncrementsCompose: a sum that leaves 64 bits wraps, where C leaves it undefined.
- Guarantees.Linearizable: for traffic with cache-only set, cas or incr it is false, see Guarantees.CacheOnlySetMisleads.
- Framing.AsWrittenIsRightWhen: exact for a frame with at most one more behind it. For more, only the sufficient condition of Framing.AsWrittenWhenHalving is proved: the code as written can lose its place and find it again by what happens to lie in the buffer, see Framing.AsWrittenCanRecover.
- Servers.Conn.Add: an insertion sort stands for qsort(); by Servers.SortedIsUnique the choice does not depend on it.
