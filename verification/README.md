# Verified model of the networking coursework repository

Five parts of the repository are modelled and proved, in Dafny 4.11:

1. **Internet checksum** (`InternetSum`, `Skel`, `Header`). `ip_checksum`, the form with 32-bit
   words, a 64-bit accumulator, deferred carries and a byte swap for odd addresses, refines the
   one's complement sum of RFC 1071 at every alignment. The 64-bit wrap-around is modelled and the
   exact condition proved under which the result is right in spite of it: for every buffer that
   fits a memory, that it did not happen. `icmp_checksum` agrees with it exactly when the data are
   not all zero and two folds were enough. The two acceptance tests of the routers differ in
   exactly one kind of header.
2. **Publish/subscribe server** (`Broker`, `Delivery`, `Descriptors`, `Payload`,
   `Framing`). Exactly-once,
   in-order delivery to each client across its connections. Unsubscribing is modelled as coded
   (erase at the descriptor, `server.cpp:322`); it meets its purpose exactly when the descriptor
   equals the client's position in the vector. In every run a client gets exactly what was
   published while it held an entry (and was connected or had its flag set); when every erase is
   at the right position, that is exactly what follows from the client's own commands; and a run
   is exhibited in which an erase at the wrong position makes the two differ. The store-and-forward
   flag is the one of the first subscription (`server.cpp:352` writes to a copy).
   Descriptors that are no client's are told why and sent nothing else.
   Number payloads read back exactly; the subscriber's framing returns what was sent.
3. **Link emulator** (`Link`, `LinkRuns`, `Queues`). Two threads as an interleaving step system with program
   counters; each lock section is one step. Conservation and order, the buffer bound, timing and
   waiting hold in every run and for every setting of the two delays. The assertion of
   `link.c:272` fails exactly when a message was accepted after the size check of the same
   iteration, or both delays are zero and the check saw at least two messages; a run of each kind
   is exhibited. The labels of a run alone decide which messages are accepted and with which clock
   reading each is sent.
4. **Route lookup and ARP router** (`Words`, `RouteTable`, `Trie`, `TrieLookup`, `ArpRouter`,
   `ArpRuns`, `ArpTable`). The linear scan finds the longest match on all non-zero contiguous masks. The binary
   search finds a match exactly when every probe before some matching index misses and points its
   way, as it does on sorted tables whose masks only grow. The trie on the heap finds the longest
   match exactly when its walk ends there, which the paths of the entries decide; both ways of
   losing a route, beyond it along the destination and by a fall to child 0, are exhibited. And
   the router's ARP table, queue and log of sent packets over all runs: the events alone decide what
   it has learned and everything it sends.
5. **HTTP reader and POST builder** (`Decimal`, `HttpReader`, `PostRequest`, `RequestFields`). The reader's result
   does not depend on how the stream is cut into reads, exactly when nothing follows the response
   in the stream; what it returns is said for every stream. A built request reads back, by the
   reader's own searches and field by field.

`CTypes` and `Wrappers` hold what several parts share. Words of memory are mathematical integers or
sequences of bits; shifts and masks are written as divisions and remainders, and every wrap-around
that can matter is written out. Hosts are little-endian. Sockets, clocks and random numbers are
parameters, event sequences or labels; sends succeed.

Where the code and its documentation disagree the code is followed: the README of the ARP router
says that the longest mask wins at every hop of the trie, which holds only under the conditions
proved in `TrieLookup`.

`dafny verify dfyconfig.toml` checks the project.

## Model

| member | source | states |
|---|---|---|
| InternetSum.ChecksumIsOnesComplementSum | Teme/Tema1/skel.c:169-219 | the stored checksum is that of the 16-bit one's complement machine of RFC 1071 started at 0xffff, and equals the machine started at 0 exactly when some byte is non-zero (all-zero data: 0 against 0xffff) |
| InternetSum.Rfc1071Example | Teme/Tema1/skel.c:169-219 | the worked example of RFC 1071 section 3 gives ddf2 and 220d |
| InternetSum.OnesSumMeaning | Teme/Tema1/skel.c:205-209 | folding the carry at every addition yields the representative in [1, 0xffff] of the plain 16-bit sum, or 0 for an empty total |
| InternetSum.FoldNowOrLater | Teme/Tema1/skel.c:205-209 | a carry folded now or deferred to the end gives the same sum |
| InternetSum.ShiftByOneByte | Teme/Tema1/skel.c:211-215 | data starting one byte later sum to 256 times as much modulo 0xffff |
| InternetSum.CanonSwap | Teme/Tema1/skel.c:211-215 | swapping the two bytes of the folded sum multiplies it by 256 modulo 0xffff |
| InternetSum.WeightedAppend | Teme/Tema1/skel.c:176-203 | the sum of a concatenation is the sum of the parts, the second shifted by the parity of the first |
| Skel.IpChecksum | Teme/Tema1/skel.c:169-219 | for every byte string and each of the four alignments the result is the exact value with one unit lost per wrap of the accumulator, hence the RFC 1071 checksum whenever alignment plus length is at most 2^34 |
| Skel.AddWords | Teme/Tema1/skel.c:173-203 | the accumulator is the exact total of the padded 32-bit words modulo 2^64, partial first and last words included |
| Skel.FoldCarries | Teme/Tema1/skel.c:205-209 | the carry loop terminates with the representative in [1, 0xffff] of a non-zero total |
| Skel.TotalMeaning | Teme/Tema1/skel.c:169-219 | after the final byte swap the word total stands for the byte sum less the lost carries, whatever the alignment |
| Skel.TailIsWeighted | Teme/Tema1/skel.c:188-203 | adding 32-bit words agrees with adding 16-bit words modulo 0xffff, the zero padding included |
| Skel.HeadIsWeighted | Teme/Tema1/skel.c:176-186 | the partial word at an unaligned start contributes its bytes at their shifted positions |
| Skel.NoCarryLost | Teme/Tema1/skel.c:169-219 | the 64-bit accumulator does not wrap up to 2^34 bytes less the alignment |
| Skel.LostCarryShows | Teme/Tema1/skel.c:169-219 | for all data and alignments the result is the RFC 1071 checksum if and only if the accumulator did not end at zero and wrapped a multiple of 0xffff times; below 0xffff wraps, if and only if it never wrapped |
| Skel.BoundIsTight | Teme/Tema1/skel.c:169-219 | one 32-bit word beyond the bound there are data on which the accumulator wraps and the result is not the RFC 1071 checksum |
| Skel.IcmpChecksum | Teme/Tema1/skel.c:151-166 | on an even number of bytes it returns the complement of the little-endian word sum folded twice; up to 2^17 + 4 bytes, not all zero, that is the value ip_checksum stores |
| Skel.IcmpAgreesWithIp | Teme/Tema1/skel.c:151-166 | both routines store the same two bytes if and only if the data are not all zero and no carry is left after two folds, which is so up to 2^17 + 4 bytes; on all-zero data they store 0xffff and 0 |
| Skel.TwoFoldsMeaning | Teme/Tema1/skel.c:163-165 | two folds give the folded sum exactly when they leave no carry, and they leave none below a sum of 0x1_0000_ffff |
| Skel.TwoFoldsTooFew | Teme/Tema1/skel.c:163-165 | two bytes beyond that length there are data on which a carry is left and the two routines store different values |
| Skel.FoldedByteOrder | Teme/Tema1/skel.c:151-166 | folded to the end, the little-endian sum is the byte swap of the big-endian one |
| Header.AcceptanceTestsDiffer | Teme/Tema1/router.c:179-185 | recompute-and-compare accepts a header if and only if the whole-sum test (Lab04/router.c:64) accepts it and the stored field is not 0xffff |
| Header.NegativeZeroExample | Lab04/router.c:64 | a header that the whole-sum test accepts and the recomputing test rejects |
| Header.StampedIsAccepted | Teme/Tema1/router.c:231-232 | a header stamped with the checksum computed over a blanked field passes both tests |
| Header.ForwardedHeader | Teme/Tema1/router.c:230-232 | forwarding changes only byte 8, the TTL, by one with wrap-around, and bytes 10 and 11, the checksum; the result passes both tests |
| Header.RewriteInPlace | pc pirvu/router.cpp:324-326 | rewriting the bytes in place yields the forwarded header of the old bytes at any address |
| Header.FieldSum | Teme/Tema1/router.c:179-185 | the checksum field adds its byte-swapped value to the sum of the blanked header |
| Broker.Server.OnDatagram | Teme/Tema2/server.cpp:204-225 | the loop over a topic's subscribers sends and stores exactly as the event step says, in vector order |
| Broker.Server.OnConnection | Teme/Tema2/server.cpp:226-283 | a new connection is rejected and told so, or takes over the stored packets, sends them in order and empties the store |
| Broker.Server.OnEof | Teme/Tema2/server.cpp:284-302 | end of file disconnects a known client; for an unknown descriptor it leaves an entry with an empty ID |
| Broker.Server.OnSubscribe | Teme/Tema2/server.cpp:326-372 | a first subscription appends an entry; a repeated one changes nothing |
| Broker.Server.OnUnsubscribe | Teme/Tema2/server.cpp:303-325 | the entry whose index equals the descriptor is erased once the client has an entry |
| Delivery.ExactlyOnceInOrder | Teme/Tema2/server.cpp:161-377 | in every run whose erases are all at the unsubscribing client's own position, the texts sent to a client over all its connections, followed by what is stored for it, are exactly the messages owed by its own commands, in order and once each |
| Delivery.DeliveredWhileHeld | Teme/Tema2/server.cpp:161-377 | in every run, right or wrong erases alike, they are exactly the messages published on a topic while the client held an entry for it and was connected or had its flag set; nothing is stored while it is connected |
| Delivery.HeldIsAsked | Teme/Tema2/server.cpp:303-325 | with erases at the right position the entries a client holds are those its own commands ask for |
| Delivery.RunKeepsEverything | Teme/Tema2/server.cpp:161-377 | the same conservation between any two points of any run, with all invariants kept |
| Delivery.StepConserves | Teme/Tema2/server.cpp:184-376 | one event: what was stored plus what became due equals what was sent plus what is now stored |
| Delivery.StepKeepsConsistent | Teme/Tema2/server.cpp:45-47 | every event keeps the three maps in agreement: one descriptor per connected client known to both maps, nothing stored for it, distinct IDs per topic |
| Delivery.StepKeepsTracks | Teme/Tema2/server.cpp:184-376 | every event keeps the client's connection and entries equal to its view; an unsubscribe takes the entry of whoever stands at the descriptor's index |
| Delivery.DeliverToSubscriber | Teme/Tema2/server.cpp:209-225 | a published message reaches a subscriber once: on its descriptor if connected, else in its store if its flag is set |
| Delivery.DeliverToStranger | Teme/Tema2/server.cpp:209-225 | it reaches nobody else's descriptor or store |
| Delivery.DeliverKeepsConnections | Teme/Tema2/server.cpp:209-225 | delivery changes no connection and no store of a connected client |
| Delivery.AcceptConserves | Teme/Tema2/server.cpp:242-283 | connecting moves the whole store to the wire; a rejected connection takes none of it |
| Delivery.PublishConserves | Teme/Tema2/server.cpp:204-225 | publishing sends or stores exactly what became due |
| Delivery.UnsubscribeMeetsIntentIffAligned | Teme/Tema2/server.cpp:320-325 | unsubscribing removes the client's own subscription and no other if and only if its descriptor equals its position |
| Delivery.UnsubscribeExample | Teme/Tema2/server.cpp:303-325 | a run from the start: six clients on descriptors 5 to 10 subscribe, the first unsubscribes, a message is published; it reaches the first client, which is not owed it, and not the sixth, which is |
| Delivery.ResubscribeKeepsFlag | Teme/Tema2/server.cpp:350-356 | subscribing again never changes the flag; a first subscription sets it |
| Delivery.FlagAfterErase | Teme/Tema2/server.cpp:322 | erasing an index takes away the flag of the entry there and of nobody else |
| Descriptors.OpenDescriptors | Teme/Tema2/server.cpp:226-302 | in every run the server watches exactly the open descriptors and knows whose each is, by the events alone: a client's until its end of file; a rejected connection's for good, under the empty ID from its end of file on |
| Descriptors.StrangersAreToldOnce | Teme/Tema2/server.cpp:244-252 | in every run a descriptor that is no client's is sent nothing, but for ;ID_EXISTS; when its connection is rejected |
| Payload.ProcessUdpPacket | Teme/Tema2/server.cpp:49-110 | the packet kind, validity and topic of a datagram; number payloads read back as the sign, number and power its bytes carry; only the byte at 50 changes |
| Payload.SentRoundTrip | Teme/Tema2/server.cpp:54-95 | datagrams made for a sign, a number below 2^32 (2^16 for SHORT_REAL) and a power, most significant byte first, carry exactly these |
| Payload.SentParts | Teme/Tema2/server.cpp:57-82 | the bytes read through memcpy and ntohl or ntohs are these numbers: weights 2^24, 2^16, 2^8 and 1 at 52 to 55, or 2^8 and 1 at 51 and 52 |
| Payload.StringComesBack | Teme/Tema2/server.cpp:96-107 | a text followed by a zero, or filling its field, is read back as topic or payload |
| Payload.PrintedExactly | Teme/Tema2/server.cpp:73-88 | for numbers below 2^32 and any power, a quotient within relative error 2^-50 prints as exactly number/10^power |
| Payload.FixedReadsBack | Teme/Tema2/server.cpp:54-95 | a sign and a fixed-point text read back to the same sign, digits and decimals, for all numbers and powers |
| Framing.ReadFrame | Teme/Tema2/subscriber.cpp:67-74 | one pass of the byte loop takes the specified prefix of the stream and leaves the rest |
| Framing.FramesAreLines | Teme/Tema2/subscriber.cpp:67-74 | reading the concatenation of any pieces gives them back if and only if each is a line or fills the buffer, the last one possibly unfinished |
| Framing.LinesComeThrough | Teme/Tema2/subscriber.cpp:67-74 | any sequence of lines of 2 to 1600 bytes comes through unchanged |
| Framing.CutIsPiece | Teme/Tema2/subscriber.cpp:69-74 | whatever the loop cuts off is a line or a full buffer, or the end of the stream |
| Framing.MessageIsLine | Teme/Tema2/server.cpp:200-202 | every server text without inner newline and with a payload of at most 1500 bytes is such a line |
| Framing.LineReadsBack | Teme/Tema2/server.cpp:200-202 | the sender address, port, topic, kind and payload of a line can be told apart at the colon and the dashes, whatever the payload contains |
| Framing.NumberFits | Teme/Tema2/server.cpp:54-95 | printed numbers stay within that payload limit |
| Queues.EmulatorQueue.Enqueue | Lab03/link_emulator/queue.c:7-24 | appends to the sequence, keeps the chain from last to first of length size, and the internal assertion holds |
| Queues.EmulatorQueue.Dequeue | Lab03/link_emulator/queue.c:26-49 | removes and returns the oldest entry, or nothing when empty; both internal assertions hold |
| Queues.EmulatorQueue.Perform | Lab03/link_emulator/queue.c:7-58 | any series of operations returns what a FIFO sequence returns |
| Queues.RouterQueue.Enq | Teme/Tema1/queue.c:24-33 | appends to the sequence; the tail pointer is followed only when it is not a freed cell |
| Queues.RouterQueue.Deq | Teme/Tema1/queue.c:35-43 | removes and returns the oldest element and frees its cell, even when tail goes stale |
| Queues.RouterQueue.Perform | Teme/Tema1/queue.c:12-43 | any series of operations, dequeues guarded by queue_empty, returns what a FIFO sequence returns |
| Queues.FifoConserves | Lab03/link_emulator/queue.c:7-49 | over any series of operations, what came out followed by what is left is what was in followed by what came in |
| Link.NothingLostOrOvertaken | Lab03/link_emulator/link.c:194-317 | under every interleaving, sent, in flight, held and buffered messages are in this order the accepted ones; the buffer never exceeds its capacity; the dequeue of line 239 never returns null |
| Link.TimingHolds | Lab03/link_emulator/link.c:232-252 | with no assumption on the clock and for every setting, due times in flight are a serialization delay apart and no message takes less than both delays; for n in flight (n-1) serialization < serialization + delay, or n is at most 1 when both delays are zero |
| Link.WaitingIsSafe | Lab03/link_emulator/link.c:253-278 | for every setting the scheduler sleeps exactly until a message may be taken or is due, polls when one may be taken already, never sleeps past the head's due time; it blocks only with no unannounced message buffered, and with nothing in flight except exactly when both delays are zero and the size check saw a message |
| Link.AssertionFailsIffOvertaken | Lab03/link_emulator/link.c:271-272 | in every run and for every setting the assertion fails if and only if a message was accepted after the size check of that iteration, or both delays are zero and the check saw at least two messages |
| Link.AbortExample | Lab03/link_emulator/link.c:271-272 | for every setting a reachable state in which it has failed after an arrival |
| Link.AbortWithoutArrival | Lab03/link_emulator/link.c:221-272 | with both delays zero (a high speed and delay 0 on the command line, lines 418-422), for every number of buffered messages from two on, a reachable state in which it has failed with no arrival since the check |
| Link.BlockedWithMessageExample | Lab03/link_emulator/link.c:255-278 | with both delays zero a reachable state in which the scheduler is blocked with a message in flight |
| LinkRuns.ReadingsAreUsed | Lab03/link_emulator/link.c:187-217 | in every run the scheduler works with the last clock reading: it is the time of every message it sends and of every message it puts in flight, in the order of those steps |
| LinkRuns.NothingDueStays | Lab03/link_emulator/link.c:194-217 | when draining ends, nothing due at that reading is left in flight; only with both delays zero can a message launched since be due |
| LinkRuns.NoNeedlessDelay | Lab03/link_emulator/link.c:232-252 | a message seen at the size check is put in flight in that iteration unless less than a serialization delay has passed since the last one |
| LinkRuns.LookIsRecorded | Lab03/link_emulator/link.c:220-222 | the sizes by which the assertion is judged are those of the scheduler's last look at the buffer |
| LinkRuns.AcceptsWhatItKeeps | Lab03/link_emulator/link.c:284-317 | in every run exactly the messages neither refused nor lost are accepted, in order; a message is refused if and only if the look at the buffer found it full |
| LinkRuns.KeptAsReceived | Lab03/link_emulator/link.c:305-309 | what is accepted is the message received last with one byte of its payload corrupted at most |
| Link.NextConserves | Lab03/link_emulator/link.c:194-252 | every step of either thread keeps the order and loses nothing |
| Link.NextBounded | Lab03/link_emulator/link.c:296-314 | the capacity check survives until the enqueue although another lock section lies between; the buffer is what the scheduler's look showed, less the message taken, plus what arrived |
| Link.NextSpaced | Lab03/link_emulator/link.c:232-247 | every step keeps due times a serialization delay apart |
| Link.NextDelayed | Lab03/link_emulator/link.c:194-217 | every step keeps messages from leaving before both delays have passed |
| Link.NextWindow | Lab03/link_emulator/link.c:194-252 | every step keeps all due times in flight within both delays of the first |
| Link.NextWaits | Lab03/link_emulator/link.c:253-278 | every step keeps the rules for sleeping and blocking |
| Link.SpacedMultiple | Lab03/link_emulator/link.c:243-247 | n entries in flight span at least n-1 serialization delays |
| Words.NetMaskOrder | Lab04/router.c:19 | the byte-swapped contiguous masks are numerically ordered by their length |
| RouteTable.GetBestRoute | Lab04/router.c:14-28 | the scan returns the first matching entry of greatest non-zero mask value, and none exactly when only entries of mask zero match |
| RouteTable.ScanIsLongestPrefixMatch | Lab04/router.c:14-28 | on non-zero contiguous masks of any lengths that is the first entry of greatest prefix length |
| RouteTable.BinarySearch | Teme/Tema1/router.c:56-80 | it computes the search function; on any table a returned entry matches and the search ends; on a table sorted by the comparator, with prefixes within half the address space and masks that only grow (one mask in particular), it returns an entry exactly when an exhaustive scan finds one |
| RouteTable.SearchFindsSteered | Teme/Tema1/router.c:56-80 | on any table at all an entry is returned if and only if it matches and every probe before it misses and points to its side, so a match is found if and only if there is one like that |
| RouteTable.ProbePointsToMatch | Teme/Tema1/router.c:66-74 | in a descending table whose masks only grow, a probe that misses points to every match |
| RouteTable.ComparatorAgrees | Teme/Tema1/router.c:91-96 | the comparator orders two prefixes in descending order if and only if their difference fits an int |
| RouteTable.SortedIsDescending | Teme/Tema1/router.c:91-110 | so a table sorted by it is in descending order when no two prefixes are half the address space apart |
| RouteTable.MixedMasksMiss | Teme/Tema1/router.c:62-75 | with masks that shrink, a sorted table of a host route and a matching default route on which the search returns nothing |
| Trie.GetMaskLength | pc pirvu/include/rtable_entry.h:32-41 | the number of leading ones of the mask, at most 31 |
| Trie.OnesOfHostMask | pc pirvu/include/rtable_entry.h:32-41 | a contiguous mask of length up to 31 has that length, the host mask counts as 31 |
| Trie.Tree.Insert | pc pirvu/include/trie.h:46-68 | inserting on the heap creates the nodes along the bits, overwrites the entry at the end and changes nothing else |
| Trie.Tree.Descend | pc pirvu/include/trie.h:51-66 | one round of the loop adds at most one node and writes the entry in the last round only |
| Trie.Tree.Next | pc pirvu/include/trie.h:70-83 | the recursive walk over the nodes computes the walk over the tree's meaning, the fall to child 0 included |
| Trie.Tree.GetPrefix | pc pirvu/include/trie.h:85-93 | the lookup on the heap is the lookup on the tree's meaning |
| TrieLookup.ParseRTable | pc pirvu/include/rtable.h:25-43 | the trie filled from a table means the list of its entries |
| TrieLookup.LineRoundTrip | pc pirvu/include/rtable.h:31-39 | turning a table into entries loses none of it |
| TrieLookup.NodeHoldsLastEntry | pc pirvu/include/trie.h:46-68 | after any sequence of inserts there is a node exactly on the paths towards entries, and it holds the last entry inserted with exactly that length and those bits, else the empty entry |
| TrieLookup.LookupWithoutFall | pc pirvu/include/trie.h:70-93 | a walk that never falls to child 0 returns the longest match or the empty entry, and the longest match exactly when nothing matches or no node lies beyond it along the destination |
| TrieLookup.LookupWithFall | pc pirvu/include/trie.h:76-78 | a walk that falls returns what is stored at the node where the paths of the entries make it end, which never matches; so it is right if and only if nothing matches and no entry is stored there |
| TrieLookup.LookupIsRightIff | pc pirvu/include/trie.h:70-93 | for every non-zero destination the lookup is longest prefix match if and only if the walk ends at the longest match or, where nothing matches, at a node without an entry |
| TrieLookup.WalkReturnsEnd | pc pirvu/include/trie.h:70-83 | every walk returns the last entry inserted at the node where it ends, a node given by the paths alone |
| TrieLookup.BestIsLongest | pc pirvu/include/trie.h:85-93 | the reference: no matching entry is longer, and among equals the last inserted is taken |
| TrieLookup.DeepestEntry | pc pirvu/include/trie.h:74 | the deepest node along a destination holds the longest match or nothing |
| TrieLookup.TrieAgreesWithScan | pc pirvu/include/trie.h:70-93 | on tables of /8, /16 and /24 masks without host bits or nested prefixes, the trie and the linear scan (Lab04/router.c:14-28) return the same entry for every non-zero destination that matches |
| TrieLookup.UniqueMatchIsFound | pc pirvu/include/trie.h:70-93 | without nesting the walk ends at the matching entry, for masks of any length |
| TrieLookup.RouteLostBehindNeighbour | pc pirvu/include/trie.h:74 | next to a longer entry that shares one more bit with the destination a matching route is lost |
| TrieLookup.RouteLostToFall | pc pirvu/include/trie.h:76-78 | next to a longer entry that goes on with 0 where the destination has 1 the walk falls, the matching route is lost, and a neighbour one bit longer is returned in its place |
| ArpRouter.Router.OnIpv4 | pc pirvu/router.cpp:274-335 | the tests in their order, then forwarding at once or one ARP request and a place in the queue |
| ArpRouter.Router.OnArpReply | pc pirvu/router.cpp:242-273 | the reply enters the table and the loop rewrites, sends and removes every queued packet |
| ArpRouter.Router.OnArpRequest | pc pirvu/router.cpp:221-241 | a request for the router or for a known host is answered, any other is not |
| ArpRouter.ForwardedBlank | pc pirvu/router.cpp:280-321 | queueing the packet with a blanked checksum does not change what is sent later |
| ArpRuns.ForwardedOnceOrWaiting | pc pirvu/router.cpp:203-336 | in every run each packet that passes the checks and is no echo for the router has been forwarded once or is waiting once |
| ArpRuns.ForwardedForm | pc pirvu/router.cpp:259-271 | what is sent differs from the received packet in TTL - 1, a checksum that both acceptance tests accept and the destination MAC only, and leaves on the interface of its route |
| ArpRuns.QueueInvariant | pc pirvu/router.cpp:316-321 | in every run the queued destinations are distinct keys of the ARP table with a route; queued TTLs are at least two; each packet's own ARP request went out on the interface it will leave on |
| ArpRuns.NeverAskedTwice | pc pirvu/router.cpp:316-321 | no address is the target of two ARP requests in a run |
| ArpRuns.ReplyEmptiesQueue | pc pirvu/router.cpp:249-272 | every ARP reply empties the queue, sending all of it in queue order |
| ArpRuns.JudgeMeaning | pc pirvu/router.cpp:284-314 | which packets are dropped, answered with time exceeded or unreachable, or accepted, as conditions on the header (RFC 1812 section 5.3.1 for the TTL) |
| ArpRuns.StepKeepsInv | pc pirvu/router.cpp:203-336 | every event keeps the invariants and accepts exactly the passing packets |
| ArpRuns.DrainForwardsAll | pc pirvu/router.cpp:249-272 | emptying the queue sends each packet once, in order, asks for nothing and adds no key |
| ArpTable.TableIsLearned | pc pirvu/router.cpp:242-247 | in every run the ARP table maps an address to the MAC of the last reply from it, to zeros if a packet only waits for it, and to nothing otherwise |
| ArpTable.EveryEventIsAnswered | pc pirvu/router.cpp:203-336 | in every run each event makes the router send exactly what the events so far say: ARP answers with its own MAC or the one learned, time exceeded, unreachable or an echo reply where the packet came from, one request, or the packet with the MAC learned when it leaves; a reply sends all that waited, in order |
| ArpTable.QueueIsHeld | pc pirvu/router.cpp:249-252 | the queue holds the packets that passed since the last reply with nothing known of their destination, checksum blanked |
| ArpTable.AddressValue | pc pirvu/router.cpp:278 | the trie is asked for the address with its first octet in the lowest bits |
| ArpTable.LeavesByLongestMatch | pc pirvu/router.cpp:268-271 | in every run a packet leaves by the interface of the longest match whenever the walk in the trie ends there, and, in a table without nested prefixes, by that of the entry that matches |
| Decimal.ValueOfText | Teme/Tema2/server.cpp:59 | a decimal text has the value it was made from |
| Decimal.StrtolOfDigits | Teme/Tema3/helpers.c:105 | strtol of digits followed by a non-digit is their value, unchanged by the conversion to int below 2^31 |
| Decimal.StrtolReads | Teme/Tema3/helpers.c:105 | strtol of white space, a sign or none, and digits up to the first other character is the signed value of the digits, clamped to 64 bits |
| HttpReader.Buffer.Add | Teme/Tema3/buffer.c:28-39 | reallocating and copying appends to the contents |
| HttpReader.Buffer.FindIn | Teme/Tema3/buffer.c:41-85 | the nested loops return the first occurrence, with or without regard to case, or -1 |
| HttpReader.FindInPrefix | Teme/Tema3/buffer.c:41-85 | first-match positions are stable: a prefix of the text has the same first match or none |
| HttpReader.ReceiveFromServer | Teme/Tema3/helpers.c:73-126 | for every stream the chunks it takes; always a prefix of the stream plus NUL; the whole stream if it has no terminator or no Content-Length; for a header with a length, the first whole chunks that reach header plus length; for exactly one response, the whole stream however it is cut |
| HttpReader.ReadHeader | Teme/Tema3/helpers.c:80-108 | the first loop ends with the first read after which both a terminator and a Content-Length have been seen, else at the end of the stream, with the header end and the length read there, whatever follows the buffer in memory |
| HttpReader.NoLengthReadsAll | Teme/Tema3/helpers.c:96-102 | without a terminator or without a Content-Length the reader goes on to the end of the stream |
| HttpReader.LengthAnywhere | Teme/Tema3/helpers.c:80-123 | wherever the Content-Length stands, in the header or only behind it, the first loop ends with the read that completes the later of the two, and if that read shows the whole number the second goes on to header plus number |
| HttpReader.NegativeLength | Teme/Tema3/helpers.c:105-123 | a negative Content-Length ends the reading at once, or, when it outweighs the header, wraps round in size_t and lets everything be read |
| HttpReader.HeaderVisible | Teme/Tema3/helpers.c:93-105 | a part of the stream shows the terminator exactly when it contains the header, and then the same length |
| HttpReader.CuttingDoesNotMatter | Teme/Tema3/helpers.c:80-123 | all ways of cutting a stream into reads give the same text if and only if the stream ends with the response or before its end, and then the text is the whole stream plus NUL |
| PostRequest.ComputePostRequest | Lab10/requests.c:43-97 | the buffers built by repeated appends hold the specified message, which RequestFields reads back, and none is overrun exactly when everything fits |
| PostRequest.BodyData | Lab10/requests.c:61-74 | the loop joins the fields with ampersands and its counter is the length of the result |
| PostRequest.ComputeMessage | Teme/Tema3/helpers.c:23-27 | appends the line and a line break |
| PostRequest.RoundTrip | Lab10/requests.c:43-97 | a clean request that fits reads back through the reader's terminator and length search: the length is that of the joined body, which starts right after the header |
| PostRequest.FirstTerminator | Lab10/requests.c:90 | the first blank line of a message follows its last header line |
| PostRequest.FirstLength | Lab10/requests.c:76-78 | the builder's own length line is the first the case-insensitive search finds |
| PostRequest.HeaderLinesClean | Lab10/requests.c:50-88 | fields without line breaks make header lines without line breaks, joined cookies included |
| RequestFields.RequestReadsBack | Lab10/requests.c:46-93 | every request whose fields have no line break, read line by line and field by field with names in any case, gives back the target, host, content type, body length and cookies it was built from |
| RequestFields.BodyReadsBack | Lab10/requests.c:61-74 | the body found by the reader's searches, split at the ampersands, gives back the fields |
| RequestFields.HeaderComesBack | Lab10/requests.c:46-90 | the header lines of a message are those it was made of |

## Left out

- Sockets, select, ioctl, file parsing, printing, DNS, SMTP and the interactive clients: input and output only.
- Topology, checker and test scripts and the duplicate copies of the checksum, the emulator and the HTTP buffer.
- The ARP reply branch of Teme/Tema1/router.c (143-172): it queues the address of one stack variable over and over, so the code does not decide which packets stay.
- The destination MAC of forwarded packets: the placeholder of pc pirvu/router.cpp:319 can be used before the reply, so no claim is made about it; the source MAC is not rewritten by the source either.
- Odd lengths of icmp_checksum: it reads one byte past the end.
- Zero-length masks: trie insertion and the linear scan ignore them.
- Skel.IpChecksum: the phases of the C function are three methods; memory is a byte sequence with an alignment, not an address.
- ArpRouter.Router.OnArpReply: the queue of the C++ library is a sequence field, and the routing table is the meaning of the trie rather than the heap object.
- Link.NothingLostOrOvertaken: delays are not negative; the two threads are modelled on values as steps, because their interleaving is the point; the linked queue they use is the class in Queues. The loss and corruption dice are free; which bit of the byte is flipped is not said.
- Delivery.ExactlyOnceInOrder: it is for runs whose erases are all at the right position; for the others Delivery.DeliveredWhileHeld says what is delivered. An erase beyond the end of the vector is undefined in C++ and ends the run.
- Descriptors.OpenDescriptors: as for the deliveries, client IDs are not empty.
- Delivery.DeliveredWhileHeld: client IDs are non-empty, accept returns a descriptor that is not open, and one received buffer is one command; the exit command of the server is not modelled.
- Payload.ProcessUdpPacket: printing a double is a relation (nearest decimal, any rule at ties) over a quotient with relative error at most 2^-50, not IEEE arithmetic.
- HttpReader.ReceiveFromServer: reads do not fail, and a header ends below 2^31 bytes, where positions still fit an int. A Content-Length behind the header may be seen before its whole number has been read; the number then depends on the memory behind the buffer, which is a parameter.
- PostRequest.ComputePostRequest: a C string that would overrun its buffer ends in no result instead of the undefined behaviour; the GET builder has no body to read back and is not modelled.
- send_to_server, destructors, buffer_destroy and the reverse direction of the emulator: they would only add easy members.
- Trie.Tree: freed nodes are not modelled, since nothing in the router deletes the trie.
