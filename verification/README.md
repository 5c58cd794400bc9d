# VoltNet: the message layer, modelled and proved

VoltNet puts messages on top of TCP's byte stream. This project models the three layers that
do it and proves what they promise, on their own and together.

* **Framing.** A sender doubles every byte 255 and ends a message with 255 0. The receiver is
  a state machine that survives being cut off anywhere, works over one reused 2048-byte
  buffer, and may be closed by the very callback it is calling.
  `Framing.dfy` (the code and its inverse), `ArbitraryStreams.dfy` (bytes nobody should have
  sent, and correct bytes in a wrong state), `Connection.dfy` (closing), `NetCon.dfy` (the
  object, over an array and heap buffers).
* **Serialization.** Integers travel most significant byte first, strings and vectors behind a
  32-bit length; arrays and structs are just their parts. Writing escapes every byte, reading
  finds them already unescaped. `Integers.dfy`, `Schema.dfy` (recursive types, their bytes,
  and what reading into an existing target leaves there), `ExactReading.dfy` (when that is
  what was written), `ArbitraryPayloads.dfy` (what reading makes of bytes nobody promised
  were written as the type), `Serializer.dfy`, `Deserializer.dfy` (the loops).
* **Buffers and the receive queue.** Message buffers come from a pool through shared pointers
  with two kinds of deleter; received messages may be deferred to another thread through a
  pair of queues; connection ids come from a compare-and-swap counter. `MsgPool.dfy`,
  `Ownership.dfy` (every holder of a buffer in one process, interleaved at will),
  `MsgRecPool.dfy`, `Replies.dfy` (callbacks that submit messages themselves),
  `ConnectionIds.dfy`.
* **The stack.** `Stack.dfy` composes them, as a theorem and as a program over the objects.

Code that changes state in place is a class or a method over the heap whose contract equates
its new state with a function of the old one; the theorems are about those functions and about
whole runs. Interleavings are runs of a transition relation whose steps are what the code does
under one lock or on data only it can reach; a message callback is the span between two steps,
and anything may happen in it. The message callback of a connection is an arbitrary function of
the messages received so far, so what is proved holds for every callback.

## What the code does, where one might expect otherwise

* A decoder that is out of step is back in step after two frames, but the first frame can do
  more harm than merge with the second. If an escape is pending and the first payload has a 0
  right after its leading 255s (the payload `[0]` will do), that one frame is delivered as two
  messages (`OneFrameCanDeliverTwo`). `SelfSynchronisation` gives the exact number of messages
  in every case and exactly when the second message survives.
* Unrecognised escapes are dropped silently; re-encoding what was received reproduces the
  stream exactly when there were none (`ReencodesExactly`).
* Reading appends to strings and vectors, and vector elements are read into value-initialised
  instances. Values come back as they were written exactly for instances all of whose strings
  and vectors are empty (`BareReadsExactly`), and vectors come back exactly into an empty one
  if and only if structs among their elements have nothing but empty strings and vectors for
  member initialisers (`EmptyVectorReadsExactly`). The struct of the client/server program,
  whose string member has a non-empty initialiser, is not among them
  (`ClientStructsKeepTheirDefault`).
* Lengths are truncated to 32 bits, so the round trip holds exactly for values all of whose
  strings and vectors are shorter than 2^32 (`RoundTrip`).
* The reader takes any byte but 0 for true and the writer sends 1, so writing back what was
  read gives the message back exactly if no boolean was sent as a byte above 1
  (`RewritesExactly`). Nothing else is lost: whatever the bytes, what is read is a value of
  the type asked for (`ReadHasType`).
* On a big-endian host the reader advances without storing anything, so an integer reads back
  exactly if the host is little-endian or the target held it already (`IntegerReadsBack`).
* `max_messages` is 50, but the size test lets the pool hold 51 buffers, never more, and some
  run gets there (`PoolLifecycle`, `PoolCanHoldOneMore`). A recycled buffer is deleted after
  its second use: no buffer enters the pool twice.
* Draining the receive queue is safe in every interleaving exactly when at most one thread
  drains it (`SafeExactlyWithOneDrainer`): the emptiness test is outside the lock.
* A callback may submit messages while it is being called. Immediate mode calls back for them
  before it goes on, deferred mode after everything already queued, so the two modes make the
  same calls in every situation exactly for callbacks that never submit
  (`SameCallsExactlyWhenSilent`).
* A connection id's swap cannot tell a counter that came full circle from one that did not
  move. No increment is lost by it: the id returned is still the number of calls that
  succeeded before, modulo 65536 (`GetNextId`).

## Model

| member | source | states |
|---|---|---|
| Framing.FrameInBytes | volt_net/include/volt/net/serialization/net_serialize.hpp:40-51 | in numbers: a payload byte 255 becomes 255 255, every other byte itself, and 255 0 ends the frame |
| Framing.PairsInBytes | volt_net/include/volt/net/volt_net_defs.hpp:20-22 | in numbers, from any decoder state outside an escape pair: 255 0 delivers the message being assembled, 255 255 appends 255, 255 followed by anything else changes nothing, and any byte but 255 is appended |
| Framing.FeedAllAppend | volt_net/src/volt/net/net_con.cpp:79-131 | the specification's step for what NetCon.NetCon.HandleRead and Stack.ReceiveAll show of the object: consuming `a` then `b` is consuming `a` followed by `b` |
| Framing.DecodeEncode | volt_net/src/volt/net/net_con.cpp:94-131 | every decoder state whatever is reached by feeding a fresh decoder the bytes that state stands for |
| Framing.FramesRoundTrip | volt_net/include/volt/net/serialization/net_serialize.hpp:40-51 | frames of any payloads, cut into any chunks, deliver exactly those payloads and leave nothing pending |
| Framing.DeliveredGrows | volt_net/src/volt/net/net_con.cpp:117-123 | deliveries are never taken back and do not influence later ones |
| Framing.UniquelyDecodable | volt_net/include/volt/net/serialization/net_serialize.hpp:40-51 | two lists of payloads with the same wire form are equal |
| Framing.PrefixFree | volt_net/include/volt/net/serialization/net_serialize.hpp:40-51 | no frame is a proper prefix of another |
| Framing.FrameLength | volt_net/include/volt/net/serialization/net_serialize.hpp:40-51 | a frame costs its payload, one byte per 255 in it, and two; never more than twice the payload and two |
| ArbitraryStreams.LexSpells | volt_net/src/volt/net/net_con.cpp:96-130 | every byte stream is a sequence of plain bytes, literal escapes, ends and unrecognised escapes, and at most one open escape |
| ArbitraryStreams.LexUnique | volt_net/src/volt/net/net_con.cpp:96-130 | in only one way |
| ArbitraryStreams.EncodeDecode | volt_net/src/volt/net/net_con.cpp:94-131 | after any input, the frames delivered, the message being assembled and the open escape encode to exactly the bytes consumed without the unrecognised pairs |
| ArbitraryStreams.ReencodesExactly | volt_net/src/volt/net/net_con.cpp:124-126 | re-encoding reproduces the stream if and only if it has no unrecognised escape |
| ArbitraryStreams.ByteAccounting | volt_net/src/volt/net/net_con.cpp:96-130 | from any state, on any input: every byte is accounted for by kind, one message per end, payload bytes only from plain bytes and literals |
| ArbitraryStreams.FrameFromAnyState | volt_net/src/volt/net/net_con.cpp:96-130 | what one frame does to a decoder in any state, in all four cases |
| ArbitraryStreams.SelfSynchronisation | volt_net/src/volt/net/net_con.cpp:96-130 | from any state two frames bring the decoder in step; exactly when the second message survives, and exactly how many messages come out |
| ArbitraryStreams.OneFrameCanDeliverTwo | volt_net/src/volt/net/net_con.cpp:117-123 | with an escape pending, the frame of `[0]` is delivered as two messages |
| Connection.ClosingCutsTheStream | volt_net/src/volt/net/net_con.cpp:94-145 | in every run with closing callbacks, read errors and explicit closes, the connection is the undisturbed decoder on a prefix of the stream, all of it while open, and the closed callback has run exactly if it is closed |
| Connection.DeliveredIsPrefix | volt_net/src/volt/net/net_con.cpp:94-145 | what is delivered is a prefix of what the same stream delivers to a connection nobody closes; the closed callback runs at most once |
| Connection.ClosedIsFinal | volt_net/src/volt/net/net_con.cpp:24-32 | once closed, nothing reopens, delivers or calls the closed callback again |
| Connection.ClosedByCallback | volt_net/src/volt/net/net_con.cpp:119-136 | without errors and explicit closes, a closed connection was closed by the callback of the last message delivered |
| Connection.ErrorsClose | volt_net/src/volt/net/net_con.cpp:138-145 | a read error or an explicit close closes the connection there and then: the closed callback has run exactly once, and the decoder stays as it was whatever else happens |
| Connection.OpenExactly | volt_net/src/volt/net/net_con.cpp:133-145 | a connection is open if and only if there was no read error, no explicit close, and no callback that asked for the close among those the stream calls for |
| Connection.FramesUntilClosed | volt_net/src/volt/net/net_con.cpp:117-136 | whole frames deliver the sent messages up to and including the first whose callback closes, or all of them |
| NetCon.NetCon.constructor | volt_net/src/volt/net/net_con.cpp:50-59 | a new connection is open, assembles an empty message in a pooled buffer, and has nothing pending |
| NetCon.NetCon.CloseCon | volt_net/src/volt/net/net_con.cpp:24-32 | the first close calls the closed callback, later ones do nothing |
| NetCon.NetCon.GetNextByte | volt_net/src/volt/net/net_con.cpp:38-48 | the next byte of the buffer in order, in bounds, or none and the index back at the front |
| NetCon.NetCon.EndMessage | volt_net/src/volt/net/net_con.cpp:117-123 | the assembled message is handed over unchanged and the next one starts empty in another buffer, while every other buffer in use keeps its contents |
| NetCon.NetCon.HandleRead | volt_net/src/volt/net/net_con.cpp:79-146 | on the reused buffer and the heap, one read does exactly what the specification of a connection says for the bytes placed there or the error, leaves messages held by the application intact, and asks for another read exactly if it succeeded and the connection is open; a failed one closes the connection, calls the closed callback if it was open, and leaves the decoder as it was |
| Stack.ReceiveAll | volt_net/src/volt/net/net_con.cpp:79-146 | reads may cut the stream at any byte, even inside an escape pair: a connection object that receives a stream in reads of any sizes up to 2048 ends in the state the specification reaches on the whole stream, since flag, partial message and index survive from read to read |
| NetCon.NetCon.ApplicationReleases | volt_net/src/volt/net/messages/msg_pool.cpp:20-37 | a held message may be released between reads without disturbing the connection or the other held messages |
| NetCon.Application.OnMessage | volt_net/src/volt/net/net_con.cpp:119-120 | whether the callback keeps the message or lets its last reference go, the messages it holds read as they were delivered |
| MessagePool.MsgPool.GetMessage | volt_net/src/volt/net/messages/msg_pool.cpp:9-23 | the buffer handed out was referenced by nobody and is empty: the last pooled one with a plain deleter, else a new one that will come back |
| MessagePool.MsgPool.ReturnMessage | volt_net/src/volt/net/messages/msg_pool.cpp:25-37 | a returned buffer is emptied and pooled if at most 50 are pooled already, and freed otherwise |
| MessagePool.MsgPool.Release | volt_net/src/volt/net/messages/msg_pool.cpp:20-37 | dropping the last reference runs the deleter the pointer carries |
| Pool.GetKeepsInv | volt_net/src/volt/net/messages/msg_pool.cpp:9-23 | a request keeps the pool's invariant: places disjoint, pooled buffers distinct and empty, histories right, at most 51 |
| Pool.RunDeleterKeepsInv | volt_net/src/volt/net/messages/msg_pool.cpp:25-37 | so does a deleter, and it touches no other buffer in use |
| Ownership.RunKeepsInv | volt_net/src/volt/net/messages/msg_pool.cpp:9-37 | in every interleaving of connections, callbacks, consumers, writers and the pool: buffers in use are exactly those referenced, shared only between pointers to one message, and each holds what its role means |
| Ownership.PoolIsInvisible | volt_net/src/volt/net/messages/msg_pool.cpp:9-37 | told from the actions of a run alone: which references there are at every moment, and that each reads as if its connection decoded the bytes that reached it, or its writer wrote what it pushed, all alone in memory of its own |
| Ownership.HeldMessageReadsBack | volt_net/src/volt/net/net_con.cpp:119-122 | a delivered message, however long it is kept, reads as the payload that the bytes which have reached its connection carry at its place |
| Ownership.HeldMessageIsSentMessage | volt_net/src/volt/net/net_con.cpp:94-131 | which is the payload sent, when those bytes are a prefix of whole frames |
| Ownership.DeliveredStaysFrozen | volt_net/src/volt/net/net_con.cpp:119-122 | at any two moments at which a delivered message is held it has the same contents |
| Ownership.NoAliasing | volt_net/src/volt/net/messages/msg_pool.cpp:9-23 | the buffer being filled is referenced by nobody else, and distinct messages never share one |
| Ownership.WriterStartsEmpty | volt_net/src/volt/net/messages/msg_writer.cpp:7 | a writer's buffer holds exactly what the writer pushed, though it never empties the buffer it is given |
| Ownership.NeverStuck | volt_net/src/volt/net/net_con.cpp:94-131 | in every reachable state a reading connection can consume any byte and one whose callback returned finds a buffer to go on with |
| Ownership.NobodyWaits | volt_net/src/volt/net/messages/msg_pool.cpp:9-23 | in every reachable state connections and writers can be opened, connections destroyed, bytes pushed, and references copied and dropped |
| Ownership.PoolLifecycle | volt_net/src/volt/net/messages/msg_pool.cpp:7-37 | over all runs every buffer is in exactly one of use, pool and freed; it is allocated once, pooled at most once, freed at most once; the pool never holds more than 51 |
| Ownership.PoolCanHoldOneMore | volt_net/src/volt/net/messages/msg_pool.cpp:28-32 | some run fills the pool with 51 buffers |
| Integers.DigitsReadBack | volt_net/src/volt/net/serialization/serialization_ext.cpp:43-86 | the base-256 digits of a number that fits denote it |
| Integers.DigitsOfFromDigits | volt_net/src/volt/net/serialization/serialization_ext.cpp:156-162 | and any bytes are the digits of the number they denote |
| Integers.DigitAt | volt_net/src/volt/net/serialization/serialization_ext.cpp:6-19 | the most significant digit comes first: byte k of w counts 256 to the power of w - 1 - k |
| Integers.MemoryAt | volt_net/src/volt/net/serialization/serialization_ext.cpp:6-19 | what a byte of an integer in memory counts on a host of either byte order |
| Integers.TwosComplement | volt_net/src/volt/net/serialization/serialization_ext.cpp:51-86 | the bytes of a negative number denote the number plus 256 to the power of its width |
| Integers.SignedReadsBack | volt_net/src/volt/net/serialization/serialization_ext.cpp:51-86 | signed integers survive as two's complement patterns |
| Integers.IntegerReadsBack | volt_net/src/volt/net/serialization/serialization_ext.cpp:131-162 | whichever host writes, an integer reads back if and only if the reading host is little-endian or the target held it already |
| Schema.ReadBack | volt_net/include/volt/net/serialization/net_serialize.hpp:30-38 | for every recursive type, target, value and trailing bytes: reading merges the value into the target and stops right after it if all lengths fit, and otherwise goes wrong |
| Schema.RoundTrip | volt_net/include/volt/net/serialization/net_serialize.hpp:72-85 | the round trip holds if and only if every string and vector is shorter than 2^32 |
| Schema.SizeInBytes | volt_net/include/volt/net/volt_net_defs.hpp:26-27 | a length travels as four bytes, most significant first, modulo 2^32 |
| Schema.TypesInBytes | volt_net/src/volt/net/serialization/serialization_ext.cpp:23-126 | in numbers: what each type puts into a message, how many bytes and what they denote, and a length before the contents of strings and vectors alone |
| ExactReading.ReadsEveryValueExactly | volt_net/src/volt/net/serialization/serialization_ext.cpp:228-237 | a target gives every value back exactly, and the reader stops right after it, if and only if nothing that would be appended to has anything in it |
| ExactReading.BareReadsExactly | volt_net/src/volt/net/serialization/serialization_ext.cpp:228-237 | told from the instance alone: it gives every value back exactly if and only if its strings and vectors are empty and so are those of any instance a vector of it would start an element with |
| ExactReading.EmptyVectorReadsExactly | volt_net/include/volt/net/serialization/net_serialize.hpp:72-85 | told from the type alone: vectors come back exactly into an empty vector if and only if no struct among their elements has a member initialiser with anything but empty strings and vectors |
| ExactReading.StructlessVectorReadsExactly | volt_net/include/volt/net/serialization/net_serialize.hpp:79-84 | so a vector of anything built without structs comes back exactly |
| ExactReading.PartsReadInPlace | volt_net/include/volt/net/serialization/serialization_ext.hpp:439-444 | each element of a fixed array, and each member of a struct, is read into the one that was there |
| ExactReading.VectorsAppend | volt_net/include/volt/net/serialization/net_serialize.hpp:77-84 | a vector keeps what it held and goes on with what an empty one would have received |
| ExactReading.StringsAppendInPlace | volt_net/include/volt/net/serialization/serialization_ext.hpp:439-444 | in a fixed array of strings, each string received follows the one that was there |
| ExactReading.ClientStructsKeepTheirDefault | tests/client_server/client_server.cpp:12-44 | in a received vector of that struct, every text follows the one its member is initialised to, and the numbers are those sent |
| ArbitraryPayloads.ReadMergesParsed | volt_net/include/volt/net/serialization/net_serialize.hpp:72-85 | for any bytes and any target: the bytes alone determine a value, where reading stops and whether it runs off the end; reading merges that value into the target |
| ArbitraryPayloads.ParseTyped | volt_net/src/volt/net/serialization/serialization_ext.cpp:156-237 | that value has the type asked for, and lengths its prefixes can say |
| ArbitraryPayloads.ReadHasType | volt_net/include/volt/net/serialization/serialization_ext.hpp:426-444 | reading any bytes into an instance of a type leaves an instance of the type |
| ArbitraryPayloads.RewritesExactly | volt_net/src/volt/net/serialization/serialization_ext.cpp:221-226 | writing back what was read into a blank target, before what was not read, gives the message back if and only if no boolean was sent as a byte above 1, and has its length in any case |
| ArbitraryPayloads.MergeInjective | volt_net/src/volt/net/serialization/serialization_ext.cpp:228-237 | a target of known contents still tells, after reading, which value was read |
| ArbitraryPayloads.ParsesExactlyEncodings | volt_net/include/volt/net/serialization/net_serialize.hpp:30-38 | a message starts with the bytes of a value of the type if and only if parsing finds that value there, stops after it and meets no boolean byte above 1: no value's bytes start another's |
| Serializer.WriteByte | volt_net/include/volt/net/serialization/net_serialize.hpp:40-45 | a byte is appended, doubled if it is 255 |
| Serializer.EndMsg | volt_net/include/volt/net/serialization/net_serialize.hpp:47-51 | 255 0 is appended |
| Serializer.WriteIntoByteArray | volt_net/src/volt/net/serialization/serialization_ext.cpp:6-19 | what is appended is the escaping of the size prefix, if asked for, and of the object's bytes, in network order if asked for |
| Serializer.WriteNumber | volt_net/src/volt/net/serialization/serialization_ext.cpp:43-86 | on a host of either byte order an integer becomes its digits, most significant first |
| Serializer.WriteInto | volt_net/include/volt/net/serialization/serialization_ext.hpp:197-215 | any value of any type appends exactly the escaping of its encoding |
| Serializer.WriteParts | volt_net/include/volt/net/serialization/net_serialize.hpp:36-37 | elements and fields are written one after the other |
| Deserializer.NetToHostEndian | volt_net/src/volt/net/serialization/serialization_ext.cpp:131-146 | in place: the destination becomes the reversed source on a little-endian host and stays as it is on a big-endian one |
| Deserializer.ReadIntoInt | volt_net/src/volt/net/serialization/serialization_ext.cpp:156-162 | the iterator advances by exactly the width on either host |
| Deserializer.ReadInto | volt_net/include/volt/net/serialization/serialization_ext.hpp:426-444 | reading any type through the iterator yields the specified value and leaves the iterator at the specified rest |
| Deserializer.ReadSeveral | volt_net/include/volt/net/serialization/net_serialize.hpp:79-84 | parts are read in order, each into its existing instance or a value-initialised one |
| ReceiveQueue.RunConserved | volt_net/src/volt/net/messages/msg_rec_pool.cpp:14-47 | with one drainer, in every interleaving: called, in hand and queued, in that order, are exactly what was submitted; the queues stay paired; no pop hits an empty queue |
| ReceiveQueue.RunAccounted | volt_net/src/volt/net/messages/msg_rec_pool.cpp:14-47 | with any number of drainers the queues stay paired and nothing is lost or handed out twice |
| ReceiveQueue.DeferredRefinesImmediate | volt_net/src/volt/net/messages/msg_rec_pool.cpp:16-25 | deferred calls are always a prefix of those of immediate mode, per connection too, and all of them when the drainer leaves |
| ReceiveQueue.OfCounts | volt_net/src/volt/net/messages/msg_rec_pool.cpp:14-26 | a connection's calls are all those with its id, each as often as it was made |
| ReceiveQueue.TwoDrainersBreak | volt_net/src/volt/net/messages/msg_rec_pool.cpp:32-45 | two drainers and one message: a run that pops an empty queue |
| ReceiveQueue.SafeExactlyWithOneDrainer | volt_net/src/volt/net/messages/msg_rec_pool.cpp:32-45 | no run pops an empty queue if and only if there is at most one drainer |
| Replies.SameCallsExactlyWhenSilent | volt_net/src/volt/net/messages/msg_rec_pool.cpp:14-47 | for a given callback, draining makes the calls immediate mode would have made for the same outside submissions, whatever came before, if and only if the callback never submits |
| Replies.DrainedInOrder | volt_net/src/volt/net/messages/msg_rec_pool.cpp:30-46 | a drain makes the queued calls and then those submitted during it, in the order of their submission: none is lost, repeated or reordered |
| Replies.CallNowCallsAnswers | volt_net/src/volt/net/messages/msg_rec_pool.cpp:22-25 | immediate mode calls back for every message submitted during a call, each once, the first of them right away |
| Replies.AnsweringReorders | volt_net/src/volt/net/messages/msg_rec_pool.cpp:30-46 | a callback that answers a call: a queue of two that the two modes call back in different orders |
| MessageQueue.MsgRecPool.SubmitMessage | volt_net/src/volt/net/messages/msg_rec_pool.cpp:14-26 | immediate mode calls back at once, and for whatever the callback submits before it returns; deferred mode appends to the queue as a step of the interleaved queue, and changes nothing else |
| MessageQueue.MsgRecPool.OnMsgReceived | volt_net/src/volt/net/messages/msg_rec_pool.cpp:24-46 | what one call does with a callback that submits any bounded number of messages: in deferred mode they join the queue, in immediate mode they are called back within it |
| MessageQueue.MsgRecPool.NotifyListeners | volt_net/src/volt/net/messages/msg_rec_pool.cpp:28-47 | the loop's test, pop and call are steps of a run of the interleaved queue; it drains what was queued and what the callback submits meanwhile, and the calls made are then all submissions, in order |
| MessageQueue.MsgRecPool.CallsAndQueueAreSubmitted | volt_net/src/volt/net/messages/msg_rec_pool.cpp:14-47 | at every step of the deferred object: calls made, then the one being made, then the queue are exactly the submissions in order |
| ConnectionIds.IdsAreSequential | volt_net/src/volt/net/network.cpp:209-218 | under any interleaving and spurious failures, as many calls succeed as the actions say should: those that did not fail spuriously and between whose load and swap a multiple of 65536 others succeeded; the k-th returns k mod 65536, the counter is one further, and two calls share an id exactly if their places differ by a multiple of 65536 |
| ConnectionIds.AloneInTime | volt_net/src/volt/net/network.cpp:212-215 | a call whose load and swap nothing comes between, and whose swap does not fail spuriously, is one that succeeds |
| ConnectionIds.CallSucceeds | volt_net/src/volt/net/network.cpp:209-218 | at any moment of any run a thread not within a call can make one, and it returns the counter's value |
| ConnectionIds.Network.GetNextId | volt_net/src/volt/net/network.cpp:209-218 | whatever other threads do between each load and its swap, and however often the swap fails spuriously: the loop ends at the first attempt whose swap can succeed and returns the number of calls that succeeded before its own, modulo 65536 |
| Stack.FullStackRoundTrip | volt_net/src/volt/net/net_con.cpp:79-136 | any typed messages, framed, cut up anyhow: one buffer each in order, the decoder idle, and reading a buffer into any target merges in exactly the value and consumes exactly the whole buffer |
| Stack.FullStackExact | volt_net/src/volt/net/net_con.cpp:79-136 | into blank targets the values come back exactly |
| Stack.Exchange | tests/client_server/client_server.cpp:132-165 | the same through the objects: a writing host of either byte order, reads of any sizes up to 2048, all messages kept until the end and then read; one buffer of its own is held per message, the connection is left open and idle with the payloads delivered, every iterator ends at the end of its buffer, and the values are merged in |

## Left out

- Boost.Asio, sockets, strands, the resolver, the listener and the threads: a read is a step that places at most 2048 bytes in the buffer, and each sent message is assumed to reach the stream whole, as `send_msg` itself assumes.
- The connection registry and its close callback in `network.cpp`: not part of this model. The first-read bookkeeping of `set_new_msg_callback` is left out as well.
- `float`: it is written with the size of a double and read with its own, so it has no round trip. A double is an 8-byte pattern.
- `std::pair`, `std::tuple` and the variadic overloads.
- Deserializer.ReadInto: requires that the message is long enough, because the code has no end check; reading past the end is undefined there and None in the specification. Targets are passed in and returned as values; only the bytes of an integer are filled in place.
- Schema.RoundTrip: is about reading on a little-endian host; for integers the big-endian case is settled by IntegerReadsBack, while a vector read there would have an undefined length.
- Ownership.RunKeepsInv: has no open flag; a connection that was closed is one that consumes no further bytes, which is among its runs. Consumers only read, as message readers do. What follows in sharing a writer's buffer after sending it is a matter of the program using the library.
- NetCon.NetCon.HandleRead: the application lets messages go in their callback or between reads; releases by other threads during a read are in Ownership, not here.
- Two threads racing inside `close_con`, whose test and store are separate: the close properties are about sequential runs.
- Unlocked reads of the queue's emptiness are taken to be atomic.
- MessageQueue.MsgRecPool.NotifyListeners: the callback submits boundedly many messages in all, for otherwise the drain need not end, and does not itself drain the queue.
- ConnectionIds.Network.GetNextId: takes what comes between its steps as given, finitely often; a loop whose swap fails for ever does not end in the code either.
- Event types, the trivial reader and writer wrappers, the build files.
