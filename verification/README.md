# MyRPC verification model

A Dafny 4.11 model of the core of MyRPC, a C++ RPC framework: its wire format and framing, its client
multiplexer, its load balancers, its fault-tolerance machinery and its lease registry. Everything is proved
for all inputs, all runs or all interleavings; nothing is executed.

`dafny verify dfyconfig.toml` checks the whole project.

## What is modelled

| files | part of the system |
|---|---|
| `Bytes`, `Varint`, `ZigzagBits`, `Reading`, `Values`, `SerializerLaws`, `Serializer`, `Grammar`, `Compatibility`, `DeepCompatibility`, `FieldLookup` | the tagged binary serializer and its `Value` trees |
| `Protocol`, `Buffers`, `Framer`, `FrameGrammar`, `BoundedReads`, `FrameStream`, `TcpConnection`, `Draining` | headers, the two-index byte queue, frame decoding, and the output path of a connection |
| `RpcChannel`, `ChannelLaws`, `ChannelMatching`, `LateArrivals`, `SlotReuse` | the slot table that multiplexes calls over one connection |
| `Instances`, `WeightedRoundRobin`, `WrrFairness`, `ConsistentHash`, `RingTies`, `RingRuns` | two load balancers |
| `CircuitBreaker`, `BreakerRuns`, `WindowAccuracy`, `ProbeRate`, `Isolation`, `Admission`, `Rounding` | the circuit breaker |
| `RetryPolicy`, `RetryBudget`, `ClusterCall`, `CallAccounts`, `ClusterBound`, `ClusterBudget` | retries, hedging and the shared retry budget |
| `Server`, `ServerReplies` | request handling on the server and the concurrency limiter |
| `LocalRegistry`, `RegistryRefinement`, `LeaseRuns`, `RegistryWatches` | the lease registry with lazy expiry and one-shot watches |
| `Powers`, `Time` | shared arithmetic and units |

Objects that the source updates in place are classes (`Buffer`, `Reader`, `Connection`, `ClientChannel`, the two
`Balancer`s, `Circuit`, `Local`). Each of their methods is proved equal to a step, or a run of steps, on the
object's abstract value, and the laws are proved about runs of those steps. Code that several threads run at once
is a state machine whose steps are the locked sections or the single atomic accesses, so a run is an interleaving.

Conventions:

- Clock readings, kernel answers, random draws and handler results are parameters. An operation that reads the
  clock several times takes several readings, required only not to go backwards.
- Clock readings are in nanoseconds.
- A double is its 64-bit pattern in the serializer and a `real` in the weighted round robin.
- A bound `< TWO64` on a byte count is the range of `size_t`.
- Tie order after sorting the hash ring is left open, as `std::sort` leaves it open.

## Where the code does less than one might expect

- A framing error drains the whole input buffer, so how a broken stream was split into reads can change what is
  delivered. `ChunkingIndependence` gives the exact condition, `LateDrain` the failing family, and
  `BoundedIndependence` shows that the condition stays the same when no read brings more than 4096 bytes.
- The direct write in `sendInLoop` treats EINTR as fatal, unlike `handleWrite`, and drops the message.
  `NothingLost` says exactly when bytes are lost, `InterruptedSendIsLost` gives the failing family.
- An oversized message has an empty frame. Should the kernel answer its write with EAGAIN, write interest goes on
  with nothing queued, and a shutdown may then be put off for good. `InterestExactly` and `HalfCloseExactly` say
  exactly when write interest follows the queue and when a shutdown half-closes, `HalfCloseForgotten` is a run in
  which it does not.
- Request ids are slot numbers plus one and are reused, answers may come late and timers are never taken back,
  though late responses are to be dropped and a reused slot is taken to be safe. `NoStraysExactly` and
  `LateIsDroppedExactly` say exactly when that is so, `ReuseIsUnsafeExactly` when a new call is safe in its slot for
  as long as it is there.
  `LateResponseEndsAnother` and `TimerEndsAnother` are two runs that go wrong.
- Request ids have 32 bits. `CorrectMatching` says exactly when that mixes calls up, `AnswerEndsAnother` shows how.
- The hash ring is rebuilt only when the number of instances changes, though only healthy instances are to be
  considered. `AnswersExactly` says exactly which picks are wrong, `EveryKeyHealthyExactly` when none is.
  `SentToTheDead` and `NeverNoticesRecovery` are two runs that go wrong.
- Two virtual nodes may share a hash, and `TieExists` names two that do. `StaysExactly` says exactly when a tie can
  move a key needlessly, `KeyMovesNeedlessly` shows that it can.
- The breaker's isolation time is described as doubling at every trip. `DoublesOnEveryTripExactly` says exactly
  when that is so, `SecondTripDoesNotDouble` is a run in which it is not. A probe that never reports keeps the
  breaker shut (`SingleProbe`).
- While a probe is under way `isAvailable` offers the instance though every request to it is refused.
  `AvailableExactly` says that they disagree then and at no other time.
- With a maximum of 0 the limiter admits everything without counting, but `release` still subtracts
  (`UnlimitedCounterWraps`, `UnlimitedWitness`).
- `instanceCount` does not sweep. `CountExactly` says exactly when it counts expired instances, `CountsTheExpired`
  is a run in which it does.
- The protocol notes speak of a shorter header and of version 1. The code writes 32 bytes and version 2, and the
  model follows the code.

## Model

The first 77 rows are the main results; the others are the operations and the steps that lead to them.

| member | source | states |
|---|---|---|
| `Serializer.RoundTrip` | src/Serializer.cpp:282-303 | every tree of any depth survives encode and decode, a non-struct as the struct of its field 1 |
| `Serializer.Canonicalisation` | src/Serializer.cpp:282-303 | any accepted bytes, however odd, decode to a value whose own encoding is no longer and decodes to the same value |
| `Serializer.EncodeInjectiveUpToWrapping` | src/Serializer.cpp:282-293 | two trees encode alike if and only if they differ at most in the top-level wrapping |
| `Serializer.Truncation` | src/Serializer.cpp:295-303 | a cut encoding decodes exactly when the cut is a field boundary |
| `Grammar.AcceptedExactly` | src/Serializer.cpp:141-303 | the reader accepts exactly the byte strings that a grammar, given apart from the reader, makes spellings of a struct, and as that struct: redundant varints, any wire type and bits beyond 64 or 32 included |
| `SerializerLaws.TypedRoundTrip` | src/Serializer.cpp:83-251 | self-delimiting: any value of any depth followed by any bytes reads back, leaving exactly those bytes |
| `SerializerLaws.TypedPrefixRejected` | src/Serializer.cpp:141-251 | every strict prefix of an encoded value is rejected |
| `DeepCompatibility.DeeplyForwardCompatible` | include/Serializer.h:31-36 | what an older reader finds along any path of numbers it knows, in the decoded bytes of a newer struct, is what it would find had the fields unknown to it never been written at any depth |
| `FieldLookup.FoundExactly` | include/Serializer.h:113-124 | in the decoded bytes of a struct a lookup along a path finds a value if and only if that value was encoded there, with only fields of other numbers before it at every hop by number |
| `FrameStream.StreamInChunks` | src/RpcFramer.cpp:8-58 | any arrived part of a stream of frames, however split into reads, delivers exactly the messages of its whole frames and leaves exactly the unfinished frame |
| `FrameStream.ReceivedAsSent` | src/RpcFramer.cpp:8-58 | a stream read to its end hands over every message with the body and all header fields the sender chose |
| `FrameGrammar.DecodedExactly` | src/RpcFramer.cpp:28-58 | of any buffer whatever the decoder delivers exactly the messages of the good frames in front, keeps what may still become a frame and drops what cannot |
| `Framer.ChunkingIndependence` | src/RpcFramer.cpp:28-58 | the split into reads never matters if and only if no byte follows the first bad header |
| `Framer.LateDrain` | src/RpcFramer.cpp:31-42 | whenever bytes follow a bad header, reading the last byte apart gives a different result |
| `BoundedReads.BoundedIndependence` | src/TcpConnection.cpp:134-164 | all ways of reading a stream at most 4096 bytes at a time give the same messages and leftover if and only if no byte follows the first bad header |
| `TcpConnection.EndToEnd` | src/TcpConnection.cpp:192-288 | whatever the writes and the peer's reads, the messages handed to the peer are a prefix of those kept, and all of them once all bytes are through |
| `TcpConnection.RunConserves` | src/TcpConnection.cpp:192-288 | over every run, written plus queued bytes are the concatenation of the kept frames |
| `TcpConnection.NothingLost` | src/TcpConnection.cpp:262-288 | over every run written plus queued bytes are the frames of all messages sent while open, if and only if no direct write of a message with a frame failed with an errno other than EAGAIN |
| `TcpConnection.InterruptedSendIsLost` | src/TcpConnection.cpp:267-283 | a signal during the direct write of any message with a frame leaves no trace of it |
| `TcpConnection.HalfCloseAfterAll` | src/TcpConnection.cpp:201-213 | in every run the half-close comes only once all kept frames have been written |
| `Draining.DrainExactly` | src/TcpConnection.cpp:192-222 | whatever the kernel answers, a drain moves exactly the bytes taken before the first EAGAIN or fatal errno from the front of the queue to the wire; if those are all, write interest is off and a disconnecting connection is shut |
| `Draining.WireExactly` | src/TcpConnection.cpp:192-288 | over every run the wire and the queue are the stream of the messages not lost, cut behind as many bytes as the kernel took |
| `Draining.InterestExactly` | src/TcpConnection.cpp:192-288 | at every point of a run the connection asks to write exactly when it is open and bytes are queued, if and only if no empty frame was answered with EAGAIN |
| `Draining.HalfCloseExactly` | src/TcpConnection.cpp:201-320 | from the task that `shutdown` leaves on, a disconnecting connection is half-closed as soon as nothing is queued, if and only if that task never finds write interest on with an empty queue |
| `Draining.HalfCloseForgotten` | src/TcpConnection.cpp:262-320 | a run in which an oversized message answered with EAGAIN makes a shutdown never half-close |
| `ChannelLaws.ExactlyOnce` | src/RpcChannel.cpp:162-285 | in every interleaving of calls, responses, timeouts, close, reconnect and stop, each issued call is in exactly one slot, in hand, or done once, and the free queue is exactly the empty slots |
| `ChannelLaws.NothingPendingAfterClose` | src/RpcChannel.cpp:498-532 | after a finished close or a stop no call is in the table |
| `ChannelLaws.DoneExactly` | src/RpcChannel.cpp:162-285 | over every run the callbacks that have run are those of calls made on a closed channel and those run after their calls were taken out, each as often as it was run |
| `LateArrivals.NoStraysExactly` | src/RpcChannel.cpp:162-285 | in every run of calls, answers, timers, cancels, closes and reconnects, every answer, timer and cancel ends the call it speaks for or nobody, if and only if none finds another call in the slot its id names |
| `LateArrivals.LateIsDroppedExactly` | src/RpcChannel.cpp:235-265 | in every run, what arrives when its call has left the table is dropped without trace if and only if the slot its id names is empty |
| `SlotReuse.ReuseIsUnsafeExactly` | src/RpcChannel.cpp:181-285 | at every point of every run, a new call can at some later time, still in its slot, be ended by an answer or a timer of another call if and only if, before it is made, a request, an answer or a timer whose id names its slot is outstanding; no later call is given a slot beyond 2^32 |
| `LateArrivals.TimerEndsAnother` | src/RpcChannel.cpp:195-212 | a run in which the timer of a call that was answered in time ends the next call |
| `LateArrivals.TimersExactly` | src/RpcChannel.cpp:195-221 | in every run a call's timer can fire if and only if the loop set it, with a positive timeout and some call in the slot its id names, and it has not fired since |
| `ChannelLaws.LateResponseEndsAnother` | src/RpcChannel.cpp:253-265 | a run in which the late answer to a timed-out call ends the next call |
| `ChannelMatching.CorrectMatching` | src/RpcChannel.cpp:181-265 | in every run without timers, answers in any order each end precisely their own call and heartbeat acks end none, if and only if no answer is to a call in slot 2^32 or above and no ack meets a call in slot 2^32 - 1 |
| `ChannelMatching.AnswerEndsAnother` | src/RpcChannel.cpp:188-192 | with 2^32 + 1 calls open the answer to the last ends the first |
| `WrrFairness.FullRound` | src/LoadBalancer.cpp:46-75 | integer weights summing to W: the first W picks give each instance exactly its weight and return to all zeros |
| `WrrFairness.EveryWindow` | src/LoadBalancer.cpp:46-75 | every W consecutive picks, wherever they start, give each instance exactly its weight |
| `WrrFairness.EveryWindowOfAnswers` | src/LoadBalancer.cpp:46-75 | among any W consecutive answers of a fresh balancer asked about the same instances, each healthy instance appears exactly as often as its weight |
| `WrrFairness.EveryWindowByInstance` | src/LoadBalancer.cpp:46-75 | in any window as long as the healthy weights' sum each healthy instance is answered exactly as often as its own weight and every other instance never |
| `WrrFairness.NeverAhead` | src/LoadBalancer.cpp:46-75 | at every prefix an instance has less than one pick above its share |
| `WrrFairness.NeverFarBehind` | src/LoadBalancer.cpp:46-75 | at every prefix it lags its share by at most one pick per other instance |
| `ConsistentHash.MinimalMovement` | src/LoadBalancer.cpp:80-108 | when an instance goes away only its own keys move, and they move to healthy instances, if no two others tie where the key lands |
| `RingTies.StaysExactly` | src/LoadBalancer.cpp:80-108 | a key of another instance is sure to stay, whatever order the sort leaves ties in, if and only if no third instance ties where it lands |
| `RingTies.KeyMovesNeedlessly` | src/LoadBalancer.cpp:80-108 | with those two instances healthy there is a ring whose key may move to the other one when a third instance goes away |
| `RingRuns.AnswersExactly` | src/LoadBalancer.cpp:94-108 | in every run a pick answers "none" if and only if nobody was healthy when the count last changed; else it answers with an instance that has the first virtual node from the key among those healthy then, and where that node stands alone the answer is healthy if and only if its instance is healthy now; key 0 is looked up as the hash of "default" |
| `RingRuns.EveryKeyHealthyExactly` | src/LoadBalancer.cpp:94-108 | in every run, if the instances healthy at the last change of the count each have a virtual node to themselves, every key gets a healthy instance if and only if somebody was healthy then and nobody healthy then has failed since |
| `RingRuns.SentToTheDead` | src/LoadBalancer.cpp:94-108 | for every key a run sends it to an instance that has failed though another is healthy |
| `RingRuns.NeverNoticesRecovery` | src/LoadBalancer.cpp:95-101 | a run in which a balancer first asked while its instance was down answers "none" after the recovery |
| `WindowAccuracy.SlidingWindow` | src/CircuitBreaker.cpp:84-115 | at every tally of every run the totals include all outcomes of the last window minus one second and none as old as the window |
| `ProbeRate.ProbesBackOff` | src/CircuitBreaker.cpp:15-67 | the n-th probe since the trip comes no sooner than the sum of the first n isolation times after it |
| `ProbeRate.SingleProbe` | src/CircuitBreaker.cpp:15-41 | from open, at most one request is admitted before the next reported outcome; from half-open none |
| `Isolation.DoublesOnEveryTripExactly` | src/CircuitBreaker.cpp:15-67 | in every run an open breaker isolates for 100 ms doubled once per probe failed since it last tripped from closed; that is the described doubling at every trip if and only if it tripped from closed only once or nine probes have failed since |
| `Isolation.SecondTripDoesNotDouble` | src/CircuitBreaker.cpp:43-67 | a run whose second trip isolates for 100 ms and not for the described 200 ms |
| `Admission.AdmittedExactly` | src/CircuitBreaker.cpp:15-67 | in every run a closed breaker admits every request, a half-open one none, and an open one exactly those at least min(100 * 2^n, 30000) ms after it opened, n being the probes failed since the trip from closed, all computed from the operations |
| `Admission.TrippedExactly` | src/CircuitBreaker.cpp:19-30 | in every run a closed breaker trips on a request if and only if the recent outcomes number at least the minimum and more of them than the threshold's share are errors; recent are all of the last window less a second and none as old as the window |
| `Admission.AvailableExactly` | src/CircuitBreaker.cpp:74-82 | in every run availability agrees with what a request would be told at the same reading if and only if no probe is under way |
| `ClusterCall.CallCompletesOnce` | src/RpcClusterChannel.cpp:111-261 | every run is finite and bounded; attempts stay within max(1, maxAttempts), doubled if hedged; a non-idempotent call is sent at most once; the callback runs at most once, exactly once at rest |
| `ClusterCall.AttemptsPaidFor` | src/RpcClusterChannel.cpp:172-213 | every attempt after the first was paid for by a retry token or is the one hedge |
| `CallAccounts.RetriesExactly` | include/RetryPolicy.h:75-89 | in every run the retries are exactly the Unknown failures of an idempotent call's attempts below the maximum for which there was a token, each of which backs off and attempts again; every other ended attempt goes on to call `done`, and only those do |
| `ClusterBound.BoundReached` | src/RpcClusterChannel.cpp:125-261 | for all options some run makes and sends exactly the bounding number of attempts |
| `RetryBudget.Conservation` | include/RetryPolicy.h:47-64 | in every interleaving tokens stay within 0 and the budget and equal budget plus effective refunds minus granted retries |
| `ClusterBudget.AmplificationBounded` | src/RpcClusterChannel.cpp:111-261 | over all calls of a channel, with every load and swap interleaved, retries never exceed budget plus attempts that ended well, and attempts two per call plus that; every token is free, held or spent, and every attempt that ended well has added a token, found the bucket full or is still to settle |
| `ClusterBudget.TurnedAwayExactly` | include/RetryPolicy.h:47-64 | in every run of all calls a strand gives up on the budget exactly when it last saw it empty, or full for a refund |
| `Server.ConcurrencyCap` | include/ConcurrencyLimiter.h:14-42 | with a positive maximum, in every interleaving the counter is the number of slots held and never exceeds the maximum |
| `Server.RefusedExactlyWhenFull` | include/ConcurrencyLimiter.h:18-29 | in every interleaving a request is refused exactly when it last read the counter at the maximum |
| `Server.SettledOnce` | src/RpcServer.cpp:72-196 | a request is let in and released at most once, equally often when over; it is answered at most once, never if one-way, exactly once with its own ids if over and reachable |
| `ServerReplies.AnsweredAsDecided` | src/RpcServer.cpp:72-196 | each request is decided by at most one event, and the reply of one that is over repeats its header with that event's status - shutting down, limited, undecodable, unknown method, deadline passed or the handler's own - and the caller's trace id or the one minted when it began; heartbeats are acknowledged, one-way calls and other frames get no reply |
| `Server.NoLeak` | src/RpcServer.cpp:65-70 | once every request is over both counters are 0 again |
| `Server.UnlimitedCounterWraps` | include/ConcurrencyLimiter.h:19-33 | with a maximum of 0 the counter is minus the releases modulo 2^64, so it is 0 if and only if those are a multiple of 2^64 |
| `RegistryRefinement.LazyLooksEager` | src/LocalRegistry.cpp:17-157 | for every run and every schedule of sweeps all lookups answer as the eager registry does without sweeps |
| `RegistryRefinement.NeverRevived` | src/LocalRegistry.cpp:57-79 | once its lease has run out an instance stays gone however often it is renewed, until it registers again |
| `LeaseRuns.LookupExactly` | src/LocalRegistry.cpp:17-103 | in every run a lookup lists, by ascending id, exactly the instances that were registered, not unregistered since, and registered or renewed while their lease ran less than that lease ago, computed from the operations alone |
| `RegistryRefinement.CountExactly` | src/LocalRegistry.cpp:110-117 | in every run the count is at least the number of running leases, and equal to it if and only if no stored lease has expired unswept |
| `RegistryRefinement.CountsTheExpired` | src/LocalRegistry.cpp:110-117 | a run after which an expired lease is still counted |
| `RegistryWatches.OneShot` | src/LocalRegistry.cpp:105-157 | each watcher is returned by the operations of a run at most once, and until then its service has neither changed version nor instances |
| `RegistryWatches.ReturnedOnce` | src/LocalRegistry.cpp:17-157 | over every run the methods return each watcher, all operations together, exactly once if it is no longer waiting and not at all while it is |
| `Bytes.LittleEndianRoundTrip` | src/Serializer.cpp:97-105 | the eight bytes written for a word determine the word |
| `Bytes.BigEndianRoundTrip` | include/Protocol.h:103-122 | a field in network order reads back as itself |
| `Bytes.BigEndianOnto` | include/Protocol.h:126-153 | every byte run is the network-order form of exactly one number |
| `Bytes.LittleEndianDigits` | src/Serializer.cpp:97-105 | byte i of a word is its i-th digit to the base 256 |
| `Bytes.BigEndianDigits` | include/Protocol.h:104-122 | in network order the highest digit comes first |
| `Varint.ZigzagBijection` | src/Serializer.cpp:71-77 | zigzag is a bijection between signed and unsigned 64-bit integers, both compositions being the identity |
| `ZigzagBits.EncodeWordExact` | src/Serializer.cpp:71-73 | on every 64-bit word the shift and exclusive-or compute the zigzag of the signed number it stands for |
| `ZigzagBits.DecodeWordExact` | src/Serializer.cpp:75-77 | on every 64-bit word the shift, mask and exclusive-or compute the signed number that the zigzag stands for |
| `Varint.Write` | src/Serializer.cpp:63-69 | the writing loop appends exactly the value's groups to what was there |
| `Varint.RoundTrip` | src/Serializer.cpp:32-48 | every 64-bit value is read back whatever follows it, leaving exactly what follows |
| `Varint.Extend` | src/Serializer.cpp:32-48 | a successful read never depends on the bytes after it |
| `Varint.EncodeMonotone` | src/Serializer.cpp:63-69 | larger values never take fewer bytes |
| `Varint.AtLeastCanonical` | src/Serializer.cpp:32-48 | however overlong an accepted varint was, its value re-encodes in no more bytes |
| `Reading.Reader.ReadByte` | src/Serializer.cpp:17-23 | fails exactly at the end, else yields the next byte and advances by one |
| `Reading.Reader.ReadBytes` | src/Serializer.cpp:24-31 | fails exactly when fewer bytes remain, leaving the cursor; else yields and skips exactly those bytes |
| `Reading.Reader.ReadVarint` | src/Serializer.cpp:32-48 | the shifting loop, with its 64-bit truncation and ten-byte limit, accepts and yields what the group-by-group definition does |
| `Reading.Reader.ReadLengthDelimited` | src/Serializer.cpp:49-60 | accepts exactly a varint length with that many bytes behind it, and yields those bytes |
| `Reading.DelimitedRoundTrip` | src/Serializer.cpp:49-60 | a length-prefixed payload reads back whole, leaving what follows |
| `Reading.DelimitedExtend` | src/Serializer.cpp:49-60 | reading a payload never depends on the bytes after it |
| `Reading.DelimitedAtLeastCanonical` | src/Serializer.cpp:49-60 | a payload that did not grow re-encodes in no more bytes than were read |
| `Reading.ShiftDropsHighBits` | src/Serializer.cpp:32-48 | shifting a group past bit 63 keeps only its low bits, as the 64-bit shift does |
| `Values.WordRoundTrip` | src/Serializer.cpp:97-105 | the bit pattern of a double survives its eight bytes |
| `Values.TagRoundTrip` | src/Serializer.cpp:254-278 | the field number survives the tag |
| `Values.TagAtLeastCanonical` | src/Serializer.cpp:261-278 | a tag with odd type bits or an oversized number re-encodes no longer |
| `SerializerLaws.ElemsRoundTrip` | src/Serializer.cpp:112-120 | the elements of an array read back in order and in full |
| `SerializerLaws.EntriesRoundTrip` | src/Serializer.cpp:121-130 | the entries of a map read back in order, keys and values |
| `SerializerLaws.FieldsRoundTrip` | src/Serializer.cpp:254-278 | the fields of a struct read back in order, numbers and values |
| `SerializerLaws.TypedExtend` | src/Serializer.cpp:141-251 | reading any accepted value never depends on the bytes after it |
| `SerializerLaws.FieldPrefixRejected` | src/Serializer.cpp:261-278 | every strict prefix of an encoded field is rejected |
| `SerializerLaws.TruncatedFields` | src/Serializer.cpp:261-278 | a cut struct decodes exactly when the cut is a field boundary, and then to the fields before it |
| `SerializerLaws.TypedAtLeastCanonical` | src/Serializer.cpp:141-251 | however an accepted value was spelled, it re-encodes in no more bytes than were read |
| `SerializerLaws.ElemsAtLeastCanonical` | src/Serializer.cpp:141-251 | the same for the elements of an array |
| `SerializerLaws.EntriesAtLeastCanonical` | src/Serializer.cpp:141-251 | the same for the entries of a map |
| `SerializerLaws.FieldsAtLeastCanonical` | src/Serializer.cpp:261-278 | the same for the fields of a struct |
| `Serializer.WriteTyped` | src/Serializer.cpp:83-139 | the recursive writer appends exactly the bytes that the round trip is proved about |
| `Serializer.WritePayload` | src/Serializer.cpp:85-138 | each type's payload is appended as the wire format lays it out |
| `Serializer.WriteWord` | src/Serializer.cpp:97-105 | the shift-and-mask loop emits the word's bytes lowest first |
| `Serializer.WriteDelimited` | src/Serializer.cpp:106-111 | the length and then the bytes are appended |
| `Serializer.WriteElems` | src/Serializer.cpp:112-120 | the loop concatenates the elements in order |
| `Serializer.WriteEntries` | src/Serializer.cpp:121-130 | the loop concatenates key and value of each entry in order |
| `Serializer.WriteEntry` | src/Serializer.cpp:123-126 | the key travels as a typed string before its value |
| `Serializer.WriteStructFields` | src/Serializer.cpp:254-259 | the loop concatenates the tagged fields in order |
| `Serializer.WriteField` | src/Serializer.cpp:254-259 | the tag and then the typed value are appended |
| `Serializer.ReadTyped` | src/Serializer.cpp:141-251 | the recursive reader accepts, yields and consumes exactly what the grammar of typed values says |
| `Serializer.ReadContainer` | src/Serializer.cpp:186-247 | the payload of a string, array, map or struct is read to its end or rejected |
| `Serializer.ReadElems` | src/Serializer.cpp:194-210 | accepts exactly a run of whole elements |
| `Serializer.ReadEntries` | src/Serializer.cpp:211-234 | accepts exactly a run of whole entries with string keys |
| `Serializer.ReadStructFields` | src/Serializer.cpp:261-278 | accepts exactly a run of whole fields |
| `Serializer.Encode` | src/Serializer.cpp:282-293 | produces the bytes that `RoundTrip` is about, wrapping a top-level non-struct |
| `Serializer.Decode` | src/Serializer.cpp:295-303 | accepts exactly the byte strings that are a run of whole fields and yields their struct |
| `Grammar.NumberComplete` | src/Serializer.cpp:32-48 | every spelling of a number in at most ten groups is read as its value modulo 2^64 |
| `Grammar.NumberSound` | src/Serializer.cpp:32-48 | whatever is read as a number is such a spelling |
| `Grammar.TypedComplete` | src/Serializer.cpp:141-251 | every spelling of a value is read as that value, whatever follows |
| `Grammar.TypedSound` | src/Serializer.cpp:141-251 | whatever is read as a value begins with a spelling of it and leaves the rest |
| `Grammar.FieldsComplete` | src/Serializer.cpp:261-278 | every spelling of a struct's fields is read as these fields |
| `Grammar.FieldsSound` | src/Serializer.cpp:261-278 | whatever is read as fields is a spelling of them |
| `Grammar.TagWritten` | src/Serializer.cpp:253-259 | a written field starts with its number above wire type 2 |
| `Compatibility.Find` | include/Serializer.h:114-124 | the search yields the first field of that number, and nothing for a non-struct |
| `FieldLookup.FirstIsFound` | include/Serializer.h:114-124 | a field with none of its number before it is the one found |
| `FieldLookup.FoundIsFirst` | include/Serializer.h:114-124 | what is found is the value of such a field |
| `FieldLookup.PlantedIsFound` | include/Serializer.h:114-124 | a value put anywhere into a tree is found along the way to it |
| `FieldLookup.FoundWasPlanted` | include/Serializer.h:114-124 | whatever is found along a path stands there in the tree |
| `Compatibility.FindKnown` | include/Serializer.h:114-124 | looking up a known number never depends on fields of unknown numbers |
| `Compatibility.ForwardCompatible` | include/Serializer.h:31-36 | leaving out unknown fields of the outermost struct alone changes no lookup of a known number at all |
| `DeepCompatibility.PruneAt` | include/Serializer.h:114-124 | along a path of known numbers, looking up in the pruned tree is pruning what the lookup finds |
| `DeepCompatibility.PruneShorter` | src/Serializer.cpp:83-139 | leaving out fields at any depth never lengthens the encoding |
| `FieldLookup.UnknownIsGone` | include/Serializer.h:114-124 | a pruned tree has no field that the schema does not know |
| `Compatibility.ConcatenationMerges` | src/Serializer.cpp:261-278 | any two accepted byte strings concatenate to the struct of their fields in order |
| `Protocol.HeaderRoundTrip` | include/Protocol.h:103-153 | no header field is lost or mixed with another on the wire |
| `Protocol.HeaderOnto` | include/Protocol.h:126-153 | every 32-byte block is the image of exactly one header |
| `Protocol.EncodeHeader` | include/Protocol.h:103-122 | fills exactly the first 32 bytes of the buffer and touches no other |
| `Buffers.Buffer.Retrieve` | src/Buffer.cpp:20-26 | drops that many queued bytes from the front, or all if fewer |
| `Buffers.Buffer.RetrieveAll` | src/Buffer.cpp:28-31 | leaves an empty queue |
| `Buffers.Buffer.RetrieveAsString` | src/Buffer.cpp:37-42 | hands out and removes at most that many bytes from the front |
| `Buffers.Buffer.Append` | src/Buffer.cpp:48-56 | adds at the back; growing never changes what was queued |
| `Buffers.Buffer.EnsureWritableBytes` | src/Buffer.cpp:66-74 | makes room while keeping indices and contents |
| `Framer.Encode` | src/RpcFramer.cpp:8-26 | the frame is the normalised header and then the body |
| `Framer.Decode` | src/RpcFramer.cpp:28-58 | the loop over the buffer delivers and leaves what the stream definition says, in order |
| `Framer.HandleRead` | src/TcpConnection.cpp:134-164 | the read loop, appending and decoding read by read, delivers and leaves what feeding the reads does |
| `Framer.TakeFrame` | src/RpcFramer.cpp:48-56 | a complete frame is handed out and removed, and nothing else |
| `Framer.DeliverAppend` | src/RpcFramer.cpp:28-58 | without a bad header, decoding in two goes equals decoding at once |
| `Framer.BadTailAppend` | src/RpcFramer.cpp:31-42 | a complete bad header is met however much arrives after it |
| `Framer.DrainAppend` | src/RpcFramer.cpp:31-42 | whatever arrives together with a bad header is drained with it |
| `Framer.FeedIsDeliver` | src/RpcFramer.cpp:28-58 | any split of a splittable stream delivers what one read would |
| `FrameGrammar.WholeFront` | src/RpcFramer.cpp:28-58 | a good frame in front of anything is recognised as its message |
| `FrameGrammar.FrontIsFrame` | src/RpcFramer.cpp:28-58 | whatever is taken for a whole frame is the frame of the message delivered |
| `BoundedReads.DeliverKeeps` | src/RpcFramer.cpp:28-58 | the bytes of the delivered frames, of the leftover and behind a bad header are all the bytes there were |
| `BoundedReads.FeedKeepsAtMost` | src/TcpConnection.cpp:134-164 | over any reads no more bytes are delivered or left than came in |
| `BoundedReads.FeedBehind` | src/TcpConnection.cpp:134-164 | what is read together with the last byte of a bad header is dropped, and reading then goes on as on a fresh connection |
| `BoundedReads.TwoCuts` | src/TcpConnection.cpp:134-164 | whenever bytes follow a bad header there are two ways of reading the stream, at most 4096 bytes at a time, with different results |
| `FrameStream.PartialStream` | src/RpcFramer.cpp:8-58 | the same for a part that arrives in one read |
| `FrameStream.WholeStreamInChunks` | src/RpcFramer.cpp:8-58 | once all has arrived, however split, every message has been delivered and nothing is left |
| `FrameStream.SentPrefix` | src/RpcFramer.cpp:8-26 | normalising messages keeps prefixes |
| `TcpConnection.Connection.SendInLoop` | src/TcpConnection.cpp:262-288 | the direct write, the remainder, the queueing and the write interest are those of one send step |
| `TcpConnection.Connection.Enqueue` | src/TcpConnection.cpp:285-286 | what the kernel did not take is queued and write interest turned on |
| `TcpConnection.Connection.HandleWrite` | src/TcpConnection.cpp:192-222 | the draining loop consumes the kernel's answers as one drain step, half-closing a disconnecting connection once drained |
| `TcpConnection.Connection.TakeWritten` | src/TcpConnection.cpp:201-213 | bytes the kernel took move from the queue to the wire |
| `TcpConnection.Connection.ShutdownInLoop` | src/TcpConnection.cpp:315-320 | half-closes exactly when no output is pending |
| `TcpConnection.Connection.Shutdown` | src/TcpConnection.cpp:95-104 | only a connected connection starts disconnecting |
| `TcpConnection.Connection.HandleClose` | src/TcpConnection.cpp:249-256 | closing ends write interest and keeps what is queued |
| `TcpConnection.StepConserves` | src/TcpConnection.cpp:192-288 | each step keeps written plus queued bytes, never takes back a written byte, and keeps write interest on pending output |
| `TcpConnection.InterruptedDrainIsNot` | src/TcpConnection.cpp:214-216 | a signal while draining the queue loses nothing |
| `TcpConnection.NothingAfterHalfClose` | src/TcpConnection.cpp:192-222 | after the half-close the bytes on the wire never change |
| `Draining.RunAccepts` | src/TcpConnection.cpp:192-288 | the wire grows by exactly the bytes that the kernel took |
| `Draining.PassedIsKept` | src/TcpConnection.cpp:262-288 | a message is kept exactly when it was written, queued or answered with EAGAIN while open |
| `Draining.StepInterest` | src/TcpConnection.cpp:192-288 | every event but one keeps write interest in step with the queue |
| `Draining.StepSettles` | src/TcpConnection.cpp:201-320 | every event but one keeps a connection that is shut down half-closed or with bytes queued |
| `Draining.HalfCloseHappens` | src/TcpConnection.cpp:201-320 | without an empty frame answered with EAGAIN every shutdown half-closes once the queue is empty |
| `RpcChannel.ClientChannel.AsyncCall` | src/RpcChannel.cpp:162-223 | a call takes the oldest free slot or a new one and gets that slot's id; on a closed channel it fails at once |
| `RpcChannel.ClientChannel.TakePending` | src/RpcChannel.cpp:235-265 | the call in the named slot is taken out and the slot freed, or nothing happens |
| `RpcChannel.ClientChannel.Complete` | src/RpcChannel.cpp:235-285 | whoever was taken out has its callback run once, and nobody else |
| `RpcChannel.ClientChannel.HandleClose` | src/RpcChannel.cpp:498-532 | the method is that run: every pending call has its callback run once and the table is emptied; a second close does nothing |
| `RpcChannel.ClientChannel.Stop` | src/RpcChannel.cpp:69-100 | the method is that run: every pending call has its callback run once and the table is emptied |
| `RpcChannel.ClientChannel.FinishAll` | src/RpcChannel.cpp:93-98 | the loop runs each remaining call's callback once |
| `RpcChannel.CloseIsRun` | src/RpcChannel.cpp:498-532 | closing undisturbed is a run of its locked sections and callbacks that empties the table and runs each pending callback once |
| `RpcChannel.StopIsRun` | src/RpcChannel.cpp:69-100 | stopping undisturbed is such a run too |
| `ChannelLaws.StepKeepsInv` | src/RpcChannel.cpp:162-285 | every locked section keeps the table, the free queue and the ledger of calls exact |
| `ChannelLaws.RunKeepsInv` | src/RpcChannel.cpp:162-285 | and so does every interleaving of them |
| `ChannelLaws.ReconnectStartsOver` | src/RpcChannel.cpp:171-193 | after every finished close the channel can be connected again, and its next call gets slot 0 and id 1 |
| `LateArrivals.TakesTenant` | src/RpcChannel.cpp:235-265 | an answer, timer or cancel takes out whoever sits in the slot its id names |
| `LateArrivals.VictimIsLater` | src/RpcChannel.cpp:181-265 | while ids do not wrap, a call ended by mistake was issued after the one it is mistaken for |
| `SlotReuse.StepKeepsClear` | src/RpcChannel.cpp:162-285 | while a call is in its slot, no happening makes another call's answer or timer name that slot |
| `SlotReuse.ClearIsNeverHit` | src/RpcChannel.cpp:162-285 | in a slot that nothing outstanding of another call names, a call is never ended by another's answer or timer, whatever happens later |
| `SlotReuse.TimingHits` | src/RpcChannel.cpp:195-212 | a timer not yet set when its slot has been given to another call is set all the same and ends that call |
| `SlotReuse.PoisedHits` | src/RpcChannel.cpp:181-285 | whatever is outstanding and names the slot, a request not yet written included, can go on to end the call in it |
| `ChannelMatching.SmallTableMatches` | src/RpcChannel.cpp:181-265 | with fewer than 2^32 slots every answer ends its own call and no ack ends any |
| `ChannelMatching.ExactlyWhenIdFits` | src/RpcChannel.cpp:253-265 | one exchange ends its own call if and only if its 32-bit id names its slot |
| `ChannelMatching.AnswerTakes` | src/RpcChannel.cpp:253-265 | an answer takes out whoever sits in the slot its wrapped id names |
| `Instances.CollectHealthy` | src/LoadBalancer.cpp:47-52 | the loop lists exactly the healthy indices in order |
| `WeightedRoundRobin.TotalWeight` | src/LoadBalancer.cpp:62-65 | the loop sums the healthy weights |
| `WeightedRoundRobin.Bump` | src/LoadBalancer.cpp:66-72 | the one-pass search over weights that are still being raised finds the first maximum of the raised weights |
| `WeightedRoundRobin.Best` | src/LoadBalancer.cpp:66-72 | the first index holding the largest value |
| `WeightedRoundRobin.Balancer.Pick` | src/LoadBalancer.cpp:46-75 | one pick is one step of smooth weighted round robin, including the reset and the no-instance case |
| `WrrFairness.BalancerFollows` | src/LoadBalancer.cpp:46-75 | from a fresh balancer and fixed health, the k-th pick is the k-th choice of the ideal sequence |
| `WrrFairness.AnsweredIsCount` | src/LoadBalancer.cpp:46-75 | the balancer answers with an instance exactly as often as the ideal sequence chooses it |
| `WrrFairness.OnlyHealthyAnswered` | src/LoadBalancer.cpp:46-55 | no other instance is ever answered |
| `WrrFairness.OutagesLeaveNoTrace` | src/LoadBalancer.cpp:46-55 | a pick that finds nobody healthy answers "none" and changes no later answer |
| `WrrFairness.HealthyComplete` | src/LoadBalancer.cpp:47-52 | an instance is among the healthy ones exactly when it is healthy |
| `WrrFairness.PickKeepsBalance` | src/LoadBalancer.cpp:46-75 | current weights sum to 0 after every pick even as health and weights change |
| `WrrFairness.Balanced` | src/LoadBalancer.cpp:62-73 | current weights sum to 0 after every prefix |
| `WrrFairness.Ledger` | src/LoadBalancer.cpp:66-73 | a current weight is the instance's entitlement so far minus what its picks have cost |
| `WrrFairness.NeverOverdrawn` | src/LoadBalancer.cpp:66-73 | no current weight ever falls to minus the total |
| `WrrFairness.CountsTotal` | src/LoadBalancer.cpp:46-75 | every pick is counted for exactly one instance |
| `WrrFairness.Periodic` | src/LoadBalancer.cpp:46-75 | the sequence repeats with period W |
| `ConsistentHash.HashBytes` | src/LoadBalancer.cpp:8-15 | the loop computes FNV-1a over 32 bits |
| `ConsistentHash.AddNodes` | src/LoadBalancer.cpp:86-89 | the inner loop adds exactly the virtual nodes of one instance |
| `ConsistentHash.SortByHash` | src/LoadBalancer.cpp:91 | the ring is sorted and holds the same virtual nodes |
| `ConsistentHash.LowerBound` | src/LoadBalancer.cpp:103 | all entries before it are smaller than the key and the one at it is not |
| `ConsistentHash.Landing` | src/LoadBalancer.cpp:103-107 | the entry a key lands on is on the ring |
| `ConsistentHash.Balancer.Rebuild` | src/LoadBalancer.cpp:80-92 | the ring is sorted and holds exactly the virtual nodes of the healthy instances |
| `ConsistentHash.Balancer.Pick` | src/LoadBalancer.cpp:94-108 | rebuilds exactly when the instance count is new, then answers with the owner of the key on the ring in use |
| `ConsistentHash.LandingIsClockwise` | src/LoadBalancer.cpp:103-107 | search with wrap-around finds the clockwise successor |
| `ConsistentHash.RingMembership` | src/LoadBalancer.cpp:80-92 | an entry is on the ring if and only if it is a virtual node of a healthy instance |
| `ConsistentHash.OwnerIsHealthy` | src/LoadBalancer.cpp:80-108 | a fresh ring sends no key to an unhealthy instance |
| `ConsistentHash.CollisionFreeIsTieFree` | src/LoadBalancer.cpp:80-92 | distinct virtual-node hashes rule out all ties |
| `RingTies.TieExists` | src/LoadBalancer.cpp:80-92 | virtual nodes 1403#36 and 1034#9 have the same hash, so distinct hashes cannot be taken for granted at 160 virtual nodes |
| `RingTies.WithoutIsRing` | src/LoadBalancer.cpp:80-92 | taking an instance's nodes out of a ring gives a ring for the remaining instances |
| `RingTies.DefaultKey` | src/LoadBalancer.cpp:102 | a request without a key is looked up as the FNV-1a hash of "default", 2470140894 |
| `RingRuns.RingInUse` | src/LoadBalancer.cpp:94-98 | in every run of picks the ring in use belongs to the states seen when the number of instances last changed |
| `RingRuns.UnchangedHealthIsEnough` | src/LoadBalancer.cpp:94-108 | one half of that without the condition on virtual nodes: if somebody was healthy and nobody has failed, every key gets a healthy instance |
| `RingRuns.LandingIsFirst` | src/LoadBalancer.cpp:103-107 | the owner of a key has the first virtual node, going up from the key and round, of all healthy instances |
| `RingRuns.CollisionFreeOwnPoints` | src/LoadBalancer.cpp:80-92 | without collisions every instance with a virtual node off hash 0 has one to itself |
| `CircuitBreaker.Circuit.RollWindow` | src/CircuitBreaker.cpp:104-115 | the loop drops exactly the leading expired slices and opens a new one when the last is a second old |
| `CircuitBreaker.Circuit.RecordOutcome` | src/CircuitBreaker.cpp:84-93 | the outcome is counted in the newest slice after rolling |
| `CircuitBreaker.Circuit.Tally` | src/CircuitBreaker.cpp:95-102 | the loop sums requests and errors over the slices |
| `CircuitBreaker.Circuit.AllowRequest` | src/CircuitBreaker.cpp:15-41 | admission, tripping on the exact error rate and the half-open probe are those of one breaker step |
| `CircuitBreaker.Circuit.IsAvailable` | src/CircuitBreaker.cpp:74-82 | available unless open and still isolated |
| `CircuitBreaker.Circuit.OnSuccess` | src/CircuitBreaker.cpp:43-54 | a success closes a half-open breaker and resets its isolation time |
| `CircuitBreaker.Circuit.OnError` | src/CircuitBreaker.cpp:56-67 | a failed probe re-opens with the doubled, capped isolation time |
| `WindowAccuracy.RollKeepsLog` | src/CircuitBreaker.cpp:104-115 | rolling neither loses nor invents an outcome: those dropped plus those in slices are the log |
| `WindowAccuracy.Explained` | src/CircuitBreaker.cpp:84-115 | throughout every run the slices stand for exactly the recorded outcomes not yet dropped |
| `WindowAccuracy.FewBuckets` | src/CircuitBreaker.cpp:104-115 | slices never outnumber the window's seconds rounded up |
| `WindowAccuracy.TripNeedsTraffic` | src/CircuitBreaker.cpp:15-41 | a breaker that trips has seen the minimum number of outcomes within the window |
| `WindowAccuracy.FreshOutcomeCounts` | src/CircuitBreaker.cpp:84-93 | however long a report takes between its readings, its outcome is counted by a tally at its second one |
| `Admission.RunFits` | src/CircuitBreaker.cpp:15-67 | state, opening time and isolation are those computed from the run's operations |
| `Rounding.RoundingOnlyDelays` | src/CircuitBreaker.cpp:23-28 | rounding the error rate to a double never trips a breaker within its threshold, and holds one back if and only if the exact rate is above the threshold and is rounded onto it |
| `ProbeRate.BackoffDoubles` | src/CircuitBreaker.cpp:63 | each step of the code's doubling gives the next term of min(100 * 2^i, 30000) ms |
| `ProbeRate.RunKeepsPInv` | src/CircuitBreaker.cpp:15-67 | throughout every run the isolation time is that of the probes failed since the trip |
| `RetryBudget.StepKeepsInv` | include/RetryPolicy.h:47-64 | every load, swap or exit of either loop keeps tokens and tallies exact |
| `RetryBudget.OnlyDroppedAtTheEdge` | include/RetryPolicy.h:47-64 | a refund is dropped only after seeing a full bucket, a retry refused only after seeing an empty one |
| `RetryBudget.RetriesBounded` | include/RetryPolicy.h:38-71 | granted retries never exceed the budget plus the refunds asked for |
| `ClusterCall.StrandMeasures` | src/RpcClusterChannel.cpp:125-261 | each step of a strand pays for the attempts, steps and hedges it sets in motion |
| `ClusterCall.StepKeepsInv` | src/RpcClusterChannel.cpp:125-261 | each step keeps the call's accounts and strictly lowers the work left |
| `ClusterCall.RunKeepsInv` | src/RpcClusterChannel.cpp:125-261 | over every run the steps taken plus the work left never exceed the work at the start |
| `ClusterCall.NeverStuck` | src/RpcClusterChannel.cpp:111-261 | a call can move if and only if it has not come to rest |
| `CallAccounts.Flow` | src/RpcClusterChannel.cpp:111-261 | in every run, at every place a strand can be, those there are those that came less those that went |
| `CallAccounts.CountersCount` | src/RpcClusterChannel.cpp:111-261 | attempts, sends, retries, hedges and callbacks count the events their names say |
| `ClusterBound.RetryRound` | src/RpcClusterChannel.cpp:172-195 | a connection-class failure of an idempotent call below its limit, given a token, sends the next attempt |
| `ClusterBudget.RetriesAreGranted` | src/RpcClusterChannel.cpp:172-195 | a call's retry count moves exactly when a strand that was granted a token goes on |
| `ClusterBudget.LoopBalances` | include/RetryPolicy.h:47-64 | each load, swap or exit inside the loops balances what it does to the tokens with what its strand holds |
| `ClusterBudget.RunKeepsInv` | src/RpcClusterChannel.cpp:172-195 | over any interleaving of calls and of the loops, every token is free, held or spent, and every token added was won |
| `Server.StepKeepsProper` | src/RpcServer.cpp:65-196 | every step on every path keeps admissions, releases and replies of a request in step with its progress |
| `Server.StepKeepsCounts` | include/ConcurrencyLimiter.h:18-33 | every load, swap and release keeps both counters equal to the requests they count |
| `ServerReplies.RunTracks` | src/RpcServer.cpp:94-176 | a request is undecided or as its one deciding event left it |
| `ServerReplies.RunCarries` | src/RpcServer.cpp:109-114 | a request's trace id is the caller's, or the one minted when it began |
| `ServerReplies.CodeIsPlace` | include/Protocol.h:65-76 | the code of each status is its place in the list of statuses |
| `Server.UnlimitedWitness` | include/ConcurrencyLimiter.h:31-33 | one request through an unlimited limiter leaves the counter at 2^64 - 1 |
| `LocalRegistry.SweepExpired` | src/LocalRegistry.cpp:121-138 | the erasing loop leaves exactly the live leases, and hands out the watchers exactly if it erased any |
| `LocalRegistry.CollectInfos` | src/LocalRegistry.cpp:92-95 | the loop lists the instances in order of their ids |
| `LocalRegistry.Local.RegisterService` | src/LocalRegistry.cpp:17-36 | the lease is stored, the version raised and all watchers handed out |
| `LocalRegistry.Local.Unregister` | src/LocalRegistry.cpp:38-55 | for a known service the lease is erased if present, the version raised and all watchers handed out |
| `LocalRegistry.Local.RenewLease` | src/LocalRegistry.cpp:57-79 | expired leases go first, then the lease is extended if it is still there |
| `LocalRegistry.Local.Lookup` | src/LocalRegistry.cpp:81-103 | expired leases go first, then the survivors are listed |
| `LocalRegistry.Local.Watch` | src/LocalRegistry.cpp:105-108 | the watcher joins the service's waiting list |
| `LocalRegistry.Local.SweepAll` | src/LocalRegistry.cpp:140-157 | one round sweeps every service with a clock reading of its own and returns the callbacks of all services swept, each service once |
| `LocalRegistry.Local.InstanceCount` | src/LocalRegistry.cpp:110-117 | counts the stored leases, expired or not |
| `RegistryRefinement.StepAgrees` | src/LocalRegistry.cpp:17-157 | every operation keeps the lazy registry in agreement with one that drops leases the instant they expire |
| `RegistryRefinement.LookupAgrees` | src/LocalRegistry.cpp:81-103 | a lookup returns what the eager registry holds at that instant |
| `RegistryRefinement.RunAgrees` | src/LocalRegistry.cpp:17-157 | over every run the lazy and the eager registry hold the same live leases |
| `LeaseRuns.RunReflects` | src/LocalRegistry.cpp:17-157 | over every run the registry holds for each instance exactly the lease told by the operations |
| `LeaseRuns.InfosListed` | src/LocalRegistry.cpp:91-95 | a lookup lists the stored instances by ascending id, each once |
| `LeaseRuns.SweptExactly` | src/LocalRegistry.cpp:140-157 | a round of sweeps leaves in each service exactly the leases that ran at the service's own reading |
| `RegistryWatches.NoSilentChange` | src/LocalRegistry.cpp:17-138 | every change of an instance set raises the version and hands out all watchers; an unchanged version means an unchanged set and nobody handed out |
| `RegistryWatches.FiredIsHandedOut` | src/LocalRegistry.cpp:17-138 | the callbacks each operation returns are exactly the watchers left behind by a change of version |
| `RegistryWatches.Perform` | src/LocalRegistry.cpp:17-157 | whatever the operation, the callbacks the registry object returns are those counted, service by service |
| `RegistryWatches.CountedAsReturned` | src/LocalRegistry.cpp:17-157 | each operation counts a watcher as handed out exactly as often as the method returns it |
| `RegistryWatches.RunKeepsInv` | src/LocalRegistry.cpp:105-138 | throughout every run each waiting watcher belongs to the version at which it subscribed |

## Left out

- Sockets, pollers, acceptors, thread pools and the event loop: kernel answers are parameters of the steps.
- `Scheduler`: rests on context switching outside what is modelled here.
- Slow-consumer eviction and back-pressure marks: timing policy around the output queue.
- How `RpcChannel` flushes its output queue, when it reconnects, and its buffers: a queued request may be
  written once connected or lost at any time, and what a closed socket had taken is not answered.
- Graceful shutdown draining of the server: the model lets a request be turned away or not at will.
- Following the registry from `RpcClusterChannel`: the instances of a call are left open.
- Instance choice inside a cluster call: whether an attempt finds an instance and a willing breaker is left open.
- Lifetimes of the controller and response objects shared by competing attempts: statuses read are left open.
- `RegistryClient`, the registry server, demos, Python scripts, logging, tracing, metrics: plumbing.
- `P2cBalancer`, latency averages, jitter, histograms, `MemoryPool`, `toJson`: random, floating or easy.
- Rounding of doubles in the weighted round robin: weights are reals.
- CircuitBreaker.Circuit.AllowRequest: the error rate is an exact quotient where the source rounds it to a double;
  `Rounding.RoundingOnlyDelays` says exactly when that differs.
- `RetryBudget::reset` while calls are running: the budget is fixed.
- 64-bit wrap-around of registry versions and instance ids: versions are unbounded.
- Handlers that call their callback twice: the server model lets each handler finish at most once.
