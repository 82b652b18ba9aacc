# Verification model of ecaludp

ecaludp sends messages of any size over UDP. The sender turns a list of buffers into one self-contained datagram, or
into one info datagram plus numbered fragments; the receiver collects the datagrams of each sender and message id,
in any order, and delivers a message when it is complete. This project models both halves (protocol version 5), the
socket around them, and the wait thread of the Npcap socket, and proves what they promise.

Below, H = 24 is the header size, p = `max_datagram_size` - H the payload of a full fragment, and `total` the size of
a message.

## The main results

- **Round trip** (`EndToEnd.RoundTrip`, `EndToEnd.RoundTripIffTimely`, `Socket.TimedRoundTrip`). For every message of the
  fragmented kind with total + p - 1 < 2^32, and every order of arrival of its datagrams, padded or not, interleaved with
  any other traffic of other keys and with sweeps, the receiver delivers the message if and only if no sweep overtakes
  it; in real time, if and only if each of its datagrams is handled at most the maximal age after the one before. Then it
  is silent until the message's own last datagram, delivers exactly the message there, and holds no entry for it
  afterwards. Messages that fit into one datagram: `Socket.SmallRoundTrip`.
- **The exact range** (`EndToEnd.RoundTripIffInRange`, `EndToEnd.DeliverableIffInRange`, `EndToEnd.WholeRoundTripIff`). Even
  over a perfect network a fragmented message comes through if and only if total + p - 1 < 2^32; beyond that no order,
  repetition or loss of its datagrams makes the receiver deliver it.
- **Loss and duplication, and what else can come out** (`EndToEnd.LossyRoundTrip`, `EndToEnd.CanDeliverIff`,
  `EndToEnd.WrongMessageIff`). For a message below 2^32 bytes the receiver delivers the message or nothing, whatever the
  network does, and at most as often as each single datagram arrived. From 2^32 bytes on this fails: exactly the
  messages put together from one fragment per announced number, with the announced length, can be delivered. With
  t = total mod 2^32 and fragment numbers that fit 32 bits, that is the first t bytes, and it happens if and only if t
  is a multiple of p and t + p - 1 < 2^32 (`EndToEnd.TruncatedMessageIff`). The smallest case: the first datagram of a
  message of 2^32 bytes alone delivers the empty message (`EndToEnd.EmptyMessageDelivered`).
- **Refinement** (`AnyTraffic.ReceiverRefines`). The implementation (slot vector, 32-bit counter, flags) is a receiver
  that delivers when the info is there and the stored fragments are exactly 0 to n - 1, for every run in which an
  info announces more than all fragment numbers stored before it. `Refinement.AlwaysTightIffWellNumbered` shows that
  this condition is exact for keeping the counter equal to the number of stored fragments;
  `Refinement.LossyNeverDelivers` says what happens to a key otherwise.
- **Null slots** (`AnyTraffic.NullSlotReadIff`, `AnyTraffic.NoNullSlotRead`, `EndToEnd.OwnNullSlotIff`). The completion
  check can read through a null slot pointer (`AnyTraffic.NullSlotReadOnTheWire`: fragment 1, then an info that announces
  one fragment). Whatever arrives, it does so at a datagram if and only if the datagram is an info that announces as many
  fragments as were counted while one of them has too high a number, or a fragment that makes the counter equal the count
  although an earlier info cut a counted fragment off. A sender's own datagrams, even merely reordered
  (`EndToEnd.ReorderingReadsNull`), can do it if and only if the message has 2^32 bytes or more and announces between
  1 and 2^32 - 2 fragments; for a message below 2^32 bytes no null slot is ever read.
- **Non-interference** (`Interleaving.Projection`). What the receiver does for one key depends on that key's datagrams
  and the sweeps alone. A datagram answered as duplicate or malformed changes nothing for anybody
  (`AnyTraffic.RejectedDatagramsStutter`), and a delivered message is made of what arrived for its key
  (`AnyTraffic.DeliveredProvenance`).
- **The builder** (`DatagramBuilder.CreateDatagramList`, `Format.WholeOnTheWire`, `Format.InfoOnTheWire`,
  `Format.FragmentOnTheWire`). The two-cursor loop emits the datagrams of the bytes, however they are split into buffers,
  and these are fixed down to each header byte.
- **Every datagram's answer** (`Socket.SocketAnswer`, `Receiving.UnknownDatagram`, `Receiving.WholeDatagramAnswer`,
  `Receiving.FragmentRefused`, `Receiving.FragmentStored`, `Receiving.InfoAnswer`). For every datagram whatsoever the
  reply and the stored state are given from its bytes and from what was stored before.
- **The wait thread** (`WaitThread.NoLostWakeup`, `WaitThread.RequestsAreConserved`, `WaitThread.ExitsAfterClose`). From a
  closed state on, all requests are handled by the time the wait thread has exited if and only if none is queued, none
  is popped and undecided, no call is still under way to the queue, and no new call is made (`WaitThread.AllHandledIff`).
  With no call under way and no new one, at most the last request is lost (`WaitThread.OnlyTheLastUnhandled`); in a race
  of calls with the close any number of them is (`WaitThread.AnyNumberUnhandled`).

## How it is put together

| module | content |
|---|---|
| `Basics`, `Wire` | machine integers, bytes, byte order, header, how a datagram is read |
| `Fragmentation` | chunks, counts and datagrams as functions of the message bytes |
| `Format` | the datagram format in plain bytes and numbers, and what a sender emits in these terms |
| `IdGenerator`, `IdNumbers` | `xorshf96` on words of bits, and on numbers |
| `DatagramBuilder` | the building methods, proved against `Fragmentation` |
| `RawMemory`, `ReassemblyV5` | recycled memory and the receiver class, proved against `PackageStep` |
| `PackageStep` | one entry of the package map and its steps |
| `View`, `Refinement` | the entry seen from outside; the specification it refines |
| `Receiving` | the receiver's answer to any datagram, in terms of its bytes and of what is stored |
| `Interleaving` | runs over many keys |
| `OneMessage`, `Delivery` | one message's datagrams as a set of indices; loss, repetition and order |
| `Assembly` | everything that the datagrams of one message can be put together to, in range or not |
| `Shipments` | what the receiver reads from a sender's bytes; a message's datagrams among other traffic |
| `NullSlots` | when the datagrams of one message can make the receiver read a null slot |
| `AnyTraffic`, `EndToEnd` | the theorems about the whole receiver, and about sender and receiver together |
| `Socket`, `Sending`, `WaitThread` | the socket, the send loops, the wait thread |

`PackageStep.Undefined` stands for a read through a null slot pointer, which has no defined result
(`ecaludp/src/protocol/reassembly_v5.cpp:225`).

Where code and documentation differ, the code is modelled: fragment numbers start at 0
(`ecaludp/src/protocol/datagram_builder_v5.cpp:211`), while the README of ecaludp (its line 132) counts from 1.

The round trip speaks of real runs: `EndToEnd.RoundTripIffInRange` applies it to every message in range, sent to an
empty receiver in order.

Conventions: a header is the struct the code fills in, with the field values before `htole32`; its bytes are the same on
every host (`Wire.HostIndependent`). A generator word is its 32 bits. Time is an integer number of clock ticks; the two
clock readings of one call (sweep and access) are parameters; the memory object that the pool hands out is a parameter
with arbitrary contents; a datagram is shorter than 2^32 bytes where padding is considered. The size limit of the sender
is taken to be at most `INT_MAX` when it fragments, because the code converts it to `int`
(`ecaludp/src/protocol/datagram_builder_v5.cpp:136`).

## Model

| member | source | states |
|---|---|---|
| Wire.HostIndependent | ecaludp/src/protocol/portable_endian.h:77-109 | `htole32` then store gives the little-endian bytes, load then `le32toh` reads them, on hosts of either byte order |
| Format.HeaderLayout | ecaludp/src/protocol/header_v5.h:34-58 | the packed header in plain bytes: magic, 5, three zero bytes, and four numbers with the lowest byte first |
| Format.LayoutDetermines | ecaludp/src/protocol/header_v5.h:34-58 | two datagrams with the same header fields and payload are the same bytes |
| Format.WholeOnTheWire | ecaludp/src/protocol/datagram_builder_v5.cpp:72-121 | a message with total + H at most the size limit goes out as one datagram: type 3, id 0xFFFFFFFF, number 1, its length, then the message |
| Format.InfoOnTheWire | ecaludp/src/protocol/datagram_builder_v5.cpp:161-182 | any other message starts with 24 bytes: type 1, the id, the count in 32-bit arithmetic, total mod 2^32 |
| Format.DatagramCount | ecaludp/src/protocol/datagram_builder_v5.cpp:184-240 | and as many fragments follow as payloads are needed |
| Format.FragmentOnTheWire | ecaludp/src/protocol/datagram_builder_v5.cpp:193-226 | fragment k of a message of any size: type 2, the id, number k in 32 bits, its own length, then the bytes from k p to (k + 1) p or the end |
| Format.NumbersAreExact | ecaludp/src/protocol/datagram_builder_v5.cpp:211 | below 2^32 bytes the number field holds k itself |
| Format.SmallExample | ecaludp/src/protocol/datagram_builder_v5.cpp:83-124 | the datagram of the message "hi" with the magic "ECAL", byte for byte |
| Format.FragmentedExample | ecaludp/src/protocol/datagram_builder_v5.cpp:126-244 | the three datagrams of a three-byte message cut into payloads of two bytes, byte for byte |
| Wire.ReadAddWrite | ecaludp/src/protocol/datagram_builder_v5.cpp:225-226 | the repeated read, add and write of `len` adds to the little-endian field on every host |
| Wire.ToInt32Injective | ecaludp/src/protocol/reassembly_v5.cpp:84 | reading the id as a signed number keeps different ids different |
| Wire.FieldsOfHeader | ecaludp/src/protocol/header_v5.h:32-60 | magic, version 5 and the four fields are read back from the packed header, with the payload right after it |
| Wire.ParseEncoded | ecaludp/src/protocol/reassembly_v5.cpp:47-78 | a datagram written by a sender is dispatched by its type and read back field by field with exactly its payload; padding is ignored |
| Wire.ParseInfo | ecaludp/src/protocol/reassembly_v5.cpp:105-106 | an info datagram announces count and length without carrying them |
| Fragmentation.CountBounds | ecaludp/src/protocol/datagram_builder_v5.cpp:138-140 | the count is the least number of payloads that hold the message |
| Fragmentation.CountIsSharp | ecaludp/src/protocol/datagram_builder_v5.cpp:128-140 | for 0 < total < 2^32 the uint32 count is the true count if and only if total + p - 1 < 2^32, and 0 otherwise |
| Fragmentation.CountFallsShort | ecaludp/src/protocol/datagram_builder_v5.cpp:128-140 | from 2^32 bytes on fewer fragments are announced than emitted |
| Fragmentation.FullFragmentsFit | ecaludp/src/protocol/datagram_builder_v5.cpp:128-140 | full fragments add up to the announced length if and only if total mod 2^32 is a multiple of p and its rounding does not overflow |
| Fragmentation.ChunkCount | ecaludp/src/protocol/datagram_builder_v5.cpp:184-240 | the message is cut into exactly that many pieces |
| Fragmentation.ChunksCover | ecaludp/src/protocol/datagram_builder_v5.cpp:184-240 | the pieces in order are the message, all but the last are full, none is empty |
| Fragmentation.DatagramSizes | ecaludp/src/protocol/datagram_builder_v5.cpp:193-219 | no datagram exceeds the limit and every fragment but the last is exactly that large |
| IdGenerator.LeftStepInverse | ecaludp/src/protocol/datagram_builder_v5.h:39-41 | `x ^= x << k` is undone by an explicit inverse, for every k > 0 |
| IdGenerator.RightStepInverse | ecaludp/src/protocol/datagram_builder_v5.h:40 | `x ^= x >> k` is undone by an explicit inverse, for every k > 0 |
| IdGenerator.MixInverse | ecaludp/src/protocol/datagram_builder_v5.h:36-49 | the generator step is a bijection on 96-bit states |
| IdGenerator.ThreeIdsAreTheState | ecaludp/src/protocol/datagram_builder_v5.h:44-48 | three consecutive ids are the generator's state |
| IdGenerator.RunsNeverMerge | ecaludp/src/protocol/datagram_builder_v5.h:36-49 | runs from different states never reach the same state |
| IdGenerator.NeverThreeZeroIds | ecaludp/src/protocol/datagram_builder_v5.cpp:152-157 | from the seed, whatever the clock, three consecutive ids are never all zero: the generator never gets stuck |
| IdGenerator.DifferentClocksDifferentIds | ecaludp/src/protocol/datagram_builder_v5.cpp:152-157 | the ids of two processes differ in every window of three exactly when their clock seeds differed |
| IdGenerator.ToUint32Injective | ecaludp/src/protocol/datagram_builder_v5.cpp:148-157 | different generator words are different 32-bit ids |
| IdGenerator.Generator.Xorshf96 | ecaludp/src/protocol/datagram_builder_v5.h:36-49 | the in-place update is the bijective step, and the id is its new third word |
| IdNumbers.ShiftLeftMultiplies | ecaludp/src/protocol/datagram_builder_v5.h:39-41 | `x << k` on a word is multiplication by 2^k modulo 2^32 |
| IdNumbers.ShiftRightDivides | ecaludp/src/protocol/datagram_builder_v5.h:40 | `x >> k` on a word is division by 2^k |
| IdNumbers.StepOnNumbers | ecaludp/src/protocol/datagram_builder_v5.h:36-49 | the step on the numbers of the words: shifts by 16, 5 and 1, each xor-ed into x, then xor-ed with y and z |
| IdNumbers.SeedNumbers | ecaludp/src/protocol/datagram_builder_v5.cpp:152-156 | the generator starts with the clock, 362436069 and 521288629 |
| IdNumbers.FirstId | ecaludp/src/protocol/datagram_builder_v5.cpp:152-157 | the first id as a formula of the clock |
| IdNumbers.SecondId | ecaludp/src/protocol/datagram_builder_v5.cpp:152-157 | the second id as a formula of the first |
| IdNumbers.FixedId | ecaludp/src/protocol/datagram_builder_v5.cpp:152-157 | for the clock value 1 it is 176911955 |
| DatagramBuilder.Size | ecaludp/src/protocol/datagram_description.h:44-52 | the accumulated size is that of the gathered datagram |
| DatagramBuilder.TotalSize32 | ecaludp/src/protocol/datagram_builder_v5.cpp:128-133 | the 32-bit accumulation is the size of the message modulo 2^32 |
| DatagramBuilder.NeededFragments | ecaludp/src/protocol/datagram_builder_v5.cpp:135-140 | the division in 32-bit arithmetic is the announced count |
| DatagramBuilder.WithoutEmptyBuffers | ecaludp/src/protocol/datagram_builder_v5.cpp:49-65 | removes the empty buffers, keeps the bytes, and totals them |
| DatagramBuilder.CreateNonFragmentedDatagram | ecaludp/src/protocol/datagram_builder_v5.cpp:83-124 | header of a self-contained message followed by all bytes |
| DatagramBuilder.CursorStep | ecaludp/src/protocol/datagram_builder_v5.cpp:218-239 | an iteration moves at least one byte or leaves an empty buffer, and the pieces still carry exactly the bytes before the cursor |
| DatagramBuilder.CursorAtEnd | ecaludp/src/protocol/datagram_builder_v5.cpp:188-190 | when the loop ends the pieces are the chunks of the message, plus one empty piece exactly if the last buffer is empty and total is a multiple of p |
| DatagramBuilder.AppendFragments | ecaludp/src/protocol/datagram_builder_v5.cpp:184-240 | the two-cursor loop terminates with one datagram per piece, numbered and with its length |
| DatagramBuilder.EnsureRoom | ecaludp/src/protocol/datagram_builder_v5.cpp:192-216 | a new numbered datagram is opened exactly when there is none or the last one is full |
| DatagramBuilder.AppendToLast | ecaludp/src/protocol/datagram_builder_v5.cpp:221-226 | a view is appended to the last datagram and its header length grows by the view's size |
| DatagramBuilder.AnnouncedIsEmitted | ecaludp/src/protocol/datagram_builder_v5.cpp:126-244 | a direct call announces the number of fragments it emits exactly when the count does not overflow and no empty last buffer opened a spurious one |
| DatagramBuilder.CreateFragmentedDatagramList | ecaludp/src/protocol/datagram_builder_v5.cpp:126-244 | draws one id and emits the info and the fragments of any buffer list |
| DatagramBuilder.CreateDatagramList | ecaludp/src/protocol/datagram_builder_v5.cpp:39-81 | rejects a size limit of at most H; otherwise the datagrams depend on the bytes alone, not on how they are split into buffers, and an id is drawn only when fragmenting |
| RawMemory.RawMemory.Reserve | ecaludp/include/ecaludp/raw_memory.h:208-228 | grows the block if needed and keeps all its bytes |
| RawMemory.RawMemory.Resize | ecaludp/include/ecaludp/raw_memory.h:241-248 | sets the size, grows the block if needed, writes nothing |
| RawMemory.RawMemory.CopyIn | ecaludp/src/protocol/reassembly_v5.cpp:264-266 | the copy at the moving position writes those bytes and no others |
| ReassemblyV5.Reassembly.HandleDatagram | ecaludp/src/protocol/reassembly_v5.cpp:47-78 | dispatch: the new package map and the answer are those of the step of the addressed entry |
| Receiving.UnknownDatagram | ecaludp/src/protocol/reassembly_v5.cpp:49-77 | a datagram below 24 bytes, or with a type other than 1, 2 and 3, is malformed and changes nothing |
| Receiving.WholeDatagramAnswer | ecaludp/src/protocol/reassembly_v5.cpp:186-208 | type 3 delivers exactly the announced bytes if and only if the datagram carries that many, is malformed otherwise, and changes nothing |
| Receiving.FragmentRefused | ecaludp/src/protocol/reassembly_v5.cpp:133-168 | type 2 is refused, in this order, for a number out of range, a number stored already, or fewer bytes than announced; nothing is stored |
| Receiving.FragmentStored | ecaludp/src/protocol/reassembly_v5.cpp:170-251 | any other fragment is stored with the announced bytes and counted; if the counter then equals the count, the entry goes, and the message is delivered if it has the announced length |
| Receiving.InfoAnswer | ecaludp/src/protocol/reassembly_v5.cpp:80-117 | type 1 is a duplicate if an info is there; otherwise count and length are taken over and fragments from the count on are dropped |
| Receiving.EntryRemainsIff | ecaludp/src/protocol/reassembly_v5.cpp:88-250 | the key, which is the sender and the signed id, has an entry afterwards unless a message was delivered or had the wrong size; other entries stay |
| ReassemblyV5.Reassembly.HandleInfo | ecaludp/src/protocol/reassembly_v5.cpp:80-117 | the info handler, map update by map update |
| ReassemblyV5.Reassembly.HandleFragment | ecaludp/src/protocol/reassembly_v5.cpp:119-131 | the fragment handler, creating the entry first |
| ReassemblyV5.Reassembly.StoreFragment | ecaludp/src/protocol/reassembly_v5.cpp:133-184 | growing the slots, the three rejections, storing and counting |
| ReassemblyV5.Reassembly.HandleNonFragmented | ecaludp/src/protocol/reassembly_v5.cpp:186-208 | a self-contained message is answered without touching any entry |
| ReassemblyV5.Reassembly.HandleIfComplete | ecaludp/src/protocol/reassembly_v5.cpp:210-251 | completion check, size check, delivery and erasure |
| ReassemblyV5.CumulatedSize | ecaludp/src/protocol/reassembly_v5.cpp:222-226 | the size sum, or the discovery of a null slot |
| ReassemblyV5.ReassemblePackage | ecaludp/src/protocol/reassembly_v5.cpp:253-271 | whatever the recycled memory held, it ends as the concatenation of the slots in index order; nothing outside the bytes in use is written |
| ReassemblyV5.Reassembly.RemoveOldPackages | ecaludp/src/protocol/reassembly_v5.cpp:273-287 | the sweep keeps exactly the entries accessed at or after the cutoff, unchanged |
| View.StepCorresponds | ecaludp/src/protocol/reassembly_v5.cpp:80-251 | on all traffic the slot vector with its counter behaves like a map of payloads with a counter, and the invariants hold: the counter never undercounts, cannot wrap, and the info fixes the slot count |
| View.RunCorresponds | ecaludp/src/protocol/reassembly_v5.cpp:47-287 | the same over whole runs with sweeps |
| View.FillCorresponds | ecaludp/src/protocol/reassembly_v5.cpp:170-179 | storing a payload fills one slot and increments the counter without wrapping |
| View.WidenCorresponds | ecaludp/src/protocol/reassembly_v5.cpp:133-149 | making room stores nothing, and the range check accepts exactly the numbers below the count, or below 2^32 - 1 while the count is unknown |
| Refinement.RejectedStepsStutter | ecaludp/src/protocol/reassembly_v5.cpp:94-168 | a step answered as duplicate or malformed can be inserted into or deleted from any run without changing another reply or the visible final state |
| Refinement.CompleteAgrees | ecaludp/src/protocol/reassembly_v5.cpp:212-218 | pigeonhole: an exact counter equals the announced count exactly when fragments 0 to n - 1 are all stored |
| Refinement.StepRefines | ecaludp/src/protocol/reassembly_v5.cpp:80-251 | a well-numbered step is a step of the specification, keeps the counter exact, leaves nothing complete behind and reads no null slot |
| Refinement.RunRefines | ecaludp/src/protocol/reassembly_v5.cpp:47-287 | the same over whole runs |
| Refinement.TightIffWellNumbered | ecaludp/src/protocol/reassembly_v5.cpp:101-116 | a step keeps the counter equal to the stored fragments if and only if it is well-numbered |
| Refinement.AlwaysTightIffWellNumbered | ecaludp/src/protocol/reassembly_v5.cpp:101-116 | the same for whole runs |
| Refinement.ShrinkingLoses | ecaludp/src/protocol/reassembly_v5.cpp:108-109 | an info that announces no more than a stored number leaves the counter too high |
| Refinement.LossyStep | ecaludp/src/protocol/reassembly_v5.cpp:212-226 | such an entry delivers nothing any more, and reads a null slot exactly at a fragment it accepts while its counter is one below the count |
| Refinement.LossyNeverDelivers | ecaludp/src/protocol/reassembly_v5.cpp:212-226 | until it is swept away it never delivers, whatever arrives |
| Refinement.ReadsNullIff | ecaludp/src/protocol/reassembly_v5.cpp:101-226 | for every entry that can come up, a null slot is read if and only if a condition on entry and datagram holds, which is stated before the step; the step keeps what the condition relies on |
| Refinement.RunReadsNullIff | ecaludp/src/protocol/reassembly_v5.cpp:47-287 | the same at every step of every run |
| Refinement.NullSlotRead | ecaludp/src/protocol/reassembly_v5.cpp:109-225 | the shortest such run: fragment 1, then an info that announces one fragment |
| Refinement.Provenance | ecaludp/src/protocol/reassembly_v5.cpp:80-251 | a delivered message has its info's length and is put together from one info and one fragment per number, all received for this key since its entry was last absent or empty |
| Interleaving.OtherKeysUntouched | ecaludp/src/protocol/reassembly_v5.cpp:84-131 | a step leaves the entries of other keys alone |
| Interleaving.StepIsLocal | ecaludp/src/protocol/reassembly_v5.cpp:84-131 | a step for a key depends on that key's entry alone |
| Interleaving.Projection | ecaludp/src/protocol/reassembly_v5.cpp:47-287 | a run over any interleaving, seen through one key, is the run on that key's stream, in entry and replies |
| Interleaving.NonInterference | ecaludp/src/protocol/reassembly_v5.cpp:47-287 | other traffic can be exchanged at will without a key noticing |
| OneMessage.CountInRange | ecaludp/src/protocol/datagram_builder_v5.cpp:140 | in range, the announced count is the number of fragments |
| OneMessage.SpecIsIdeal | ecaludp/src/protocol/reassembly_v5.cpp:80-251 | on one message's datagrams the specification is a set of the indices received, complete when all are there |
| OneMessage.ReceiverIsIdeal | ecaludp/src/protocol/reassembly_v5.cpp:47-287 | the implementation answers every stream of a message's datagrams, lost, repeated, reordered or expired, like that set; such streams are well-numbered |
| Assembly.OnlyAssemblies | ecaludp/src/protocol/reassembly_v5.cpp:80-271 | whatever arrives of a message of any size, a delivered message is put together from one of its fragments per announced number and has the announced length |
| Assembly.EveryAssembly | ecaludp/src/protocol/reassembly_v5.cpp:80-271 | every such message is delivered by the info and the chosen fragments |
| Assembly.AssemblyLength | ecaludp/src/protocol/datagram_builder_v5.cpp:198-212 | its fragments are all full, unless the last one stands for its number modulo 2^32 |
| Assembly.SmallAssemblyIff | ecaludp/src/protocol/reassembly_v5.cpp:232-247 | below 2^32 bytes that is the message itself, and only in range |
| Assembly.TruncationIff | ecaludp/src/protocol/reassembly_v5.cpp:232-247 | beyond, while fragment numbers fit 32 bits, it is the message cut at total mod 2^32, if and only if that is a multiple of p whose rounding does not overflow |
| Assembly.WrongAssemblyIff | ecaludp/src/protocol/reassembly_v5.cpp:232-247 | something else than the message can come out if and only if it has 2^32 bytes or more and the sizes add up |
| Assembly.NumbersWrapAround | ecaludp/src/protocol/datagram_builder_v5.cpp:211 | sizes for which fragments add up only because the 32-bit fragment number wraps around |
| NullSlots.StepHolds | ecaludp/src/protocol/reassembly_v5.cpp:101-226 | on a message's own datagrams: an info cuts a counted fragment off only if the message announces none or is undercounted, and only an undercounted one leads to a null slot read |
| NullSlots.OvertakenInfoReadsNull | ecaludp/src/protocol/reassembly_v5.cpp:101-226 | fragments 1 to c of such a message, then its info: a null slot is read |
| NullSlots.OwnDatagramsReadNull | ecaludp/src/protocol/reassembly_v5.cpp:80-226 | no other message's datagrams lead to it, however they arrive |
| Delivery.DeliveryBudget | ecaludp/src/protocol/reassembly_v5.cpp:151-250 | deliveries plus what is pending never exceed the arrivals of any one datagram |
| Delivery.InfoBudget | ecaludp/src/protocol/reassembly_v5.cpp:94-116 | for any traffic: every delivery uses up an info |
| Delivery.LossAndDuplication | ecaludp/src/protocol/reassembly_v5.cpp:94-250 | for messages of any size: only assemblies are delivered, at most one per info; below 2^32 bytes only the message; a null slot is read only of a message of 2^32 bytes or more that announces some but too few fragments; in range only silence and duplicates otherwise, and at most as many deliveries as arrivals of each datagram |
| Delivery.InAnyOrder | ecaludp/src/protocol/reassembly_v5.cpp:119-184 | the missing datagrams complete the message in whatever order they come |
| Delivery.AnyOrderDelivers | ecaludp/src/protocol/reassembly_v5.cpp:80-251 | each datagram once, in any order: silence, then the message at the last arrival, then no entry |
| Delivery.DeliveredIffTimely | ecaludp/src/protocol/reassembly_v5.cpp:80-287 | each datagram once, in any order: the message is delivered if and only if no sweep overtakes it |
| Shipments.ReadDatagram | ecaludp/src/protocol/reassembly_v5.cpp:80-173 | what the builder writes as datagram i of a message of any size, the receiver files under sender and id as the announcement or fragment i - 1, in 32-bit numbers |
| Shipments.DatagramContent | ecaludp/src/protocol/reassembly_v5.cpp:80-173 | in range these are the true number, count and payload |
| EndToEnd.RoundTrip | ecaludp/src/protocol/reassembly_v5.cpp:47-271 | the round trip under reordering, padding, interleaving and timely sweeps |
| EndToEnd.RoundTripIffTimely | ecaludp/src/protocol/reassembly_v5.cpp:47-287 | in range, each datagram once: delivered if and only if no sweep overtakes the message |
| EndToEnd.LossyRoundTrip | ecaludp/src/protocol/reassembly_v5.cpp:47-287 | a message of any size under loss, repetition, reordering, padding, interleaving and expiry: only assemblies of its fragments are delivered, below 2^32 bytes only the message, at most as often as infos arrive; a null slot is read only of a message of 2^32 bytes or more that announces between 1 and 2^32 - 2 fragments |
| EndToEnd.LossyRoundTripInRange | ecaludp/src/protocol/reassembly_v5.cpp:47-287 | in range nothing but silence, duplicates and the message, at most as often as each datagram arrived |
| EndToEnd.CanDeliverIff | ecaludp/src/protocol/reassembly_v5.cpp:47-271 | exactly the assemblies of a message's fragments can be delivered by some arrival pattern |
| EndToEnd.DeliverableIffInRange | ecaludp/src/protocol/datagram_builder_v5.cpp:128-140 | the message itself can if and only if total + p - 1 < 2^32 |
| EndToEnd.WrongMessageIff | ecaludp/src/protocol/datagram_builder_v5.cpp:128-140 | a message other than the one sent can if and only if total >= 2^32 and the sizes add up |
| EndToEnd.TruncatedMessageIff | ecaludp/src/protocol/datagram_builder_v5.cpp:128-140 | while fragment numbers fit 32 bits, that message is the first t = total mod 2^32 bytes, and it can come out if and only if t is a multiple of p and t + p - 1 < 2^32 |
| EndToEnd.EmptyMessageDelivered | ecaludp/src/protocol/datagram_builder_v5.cpp:128-180 | the first datagram of a message of 2^32 bytes delivers the empty message |
| EndToEnd.ReorderingReadsNull | ecaludp/src/protocol/reassembly_v5.cpp:101-226 | its own datagrams, each at most once and merely reordered, make the receiver read a null slot of such a message |
| EndToEnd.OwnNullSlotIff | ecaludp/src/protocol/reassembly_v5.cpp:101-226 | some arrival pattern of a message's own datagrams reads a null slot if and only if it has 2^32 bytes or more and announces between 1 and 2^32 - 2 fragments |
| AnyTraffic.ReceiverRefines | ecaludp/src/protocol/reassembly_v5.cpp:47-287 | for every key with well-numbered traffic the receiver is the specification, and nothing complete is left in its entry |
| AnyTraffic.RejectedDatagramsStutter | ecaludp/src/protocol/reassembly_v5.cpp:47-208 | a datagram answered as duplicate or malformed can be inserted anywhere into any traffic: no other reply and no key's visible entry changes |
| AnyTraffic.DeliveredProvenance | ecaludp/src/protocol/reassembly_v5.cpp:47-287 | whatever arrives, a delivered fragmented message is put together from datagrams for its key since that entry was last absent or empty |
| AnyTraffic.NullSlotReadIff | ecaludp/src/protocol/reassembly_v5.cpp:101-226 | whatever arrives, a null slot is read at a datagram if and only if it is an info announcing the counted number of fragments while a stored number is too high, or a fragment that makes the counter of an entry with a cut-off fragment equal the count |
| AnyTraffic.NoNullSlotRead | ecaludp/src/protocol/reassembly_v5.cpp:220-226 | the runs that read no null slot are exactly those without such a datagram |
| AnyTraffic.WellNumberedReadsNoNull | ecaludp/src/protocol/reassembly_v5.cpp:220-226 | well-numbered traffic is among them |
| AnyTraffic.NullSlotReadOnTheWire | ecaludp/src/protocol/reassembly_v5.cpp:109-225 | two datagrams, byte for byte, at the second of which a null slot is read |
| EndToEnd.NeverDelivered | ecaludp/src/protocol/datagram_builder_v5.cpp:128-140 | with total + p - 1 >= 2^32 no arrival pattern delivers the message; anything else only from 2^32 bytes on, if the sizes add up |
| EndToEnd.RoundTripIffInRange | ecaludp/src/protocol/datagram_builder_v5.cpp:126-244 | over a perfect network a fragmented message comes through if and only if total + p - 1 < 2^32 |
| EndToEnd.WholeRoundTrip | ecaludp/src/protocol/reassembly_v5.cpp:186-208 | a self-contained datagram, padded or not, is delivered at once and touches no entry |
| EndToEnd.WholeRoundTripIff | ecaludp/src/protocol/datagram_builder_v5.cpp:83-124 | it carries its message if and only if the length fits 32 bits |
| Socket.MagicCheckIsEquality | ecaludp/src/socket.cpp:296-300 | `strncmp` accepts exactly the own magic if and only if no NUL precedes its last byte |
| Socket.SocketAnswer | ecaludp/src/socket.cpp:279-326 | every datagram causes the sweep; below 5 bytes or with a magic that differs before a common NUL it is malformed, with a version other than 5 unsupported, and otherwise the reassembly's |
| Socket.ForeignDatagramsRefused | ecaludp/src/socket.cpp:287-318 | the same with plain equality for a magic without an early NUL: foreign datagrams get nowhere |
| Socket.OtherEntries | ecaludp/src/socket.cpp:284 | the entry of a key the datagram is not for is kept unchanged if accessed at or after the cutoff, and erased otherwise |
| Socket.SmallRoundTrip | ecaludp/src/socket.cpp:279-326 | a message that fits into one datagram is delivered by a socket with the same magic, padded or not, and nothing is stored |
| Socket.NothingOldRemains | ecaludp/src/socket.cpp:284 | after each datagram every entry was accessed at most the maximal age before the call, or is an empty shell |
| Socket.SocketRunIsRun | ecaludp/src/socket.cpp:279-326 | a timed run of the socket is the run of the reassembly on the calls it makes |
| Socket.OwnDatagramsAdmitted | ecaludp/src/socket.cpp:287-308 | a sender's datagrams pass the check of a socket with the same magic |
| Socket.PromptIffTimely | ecaludp/src/socket.cpp:284 | no sweep overtakes a message if and only if each of its datagrams is handled at most the maximal age after the one before |
| Socket.TimedRoundTrip | ecaludp/src/socket.cpp:279-326 | the round trip in real time, sweeps included: delivered if and only if handled promptly, and then at the last datagram |
| Socket.Socket.constructor | ecaludp/src/socket.cpp:79-86 | an empty reassembly and a maximal age of five seconds |
| Socket.Socket.HandleDatagram | ecaludp/src/socket.cpp:279-326 | sweep, size check, magic, version and dispatch, in this order |
| Socket.Socket.ReceiveOne | ecaludp/src/socket.cpp:187-224 | one item: an error, the shutdown, or a datagram with its message and sender |
| Socket.Socket.ReceiveFrom | ecaludp/src/socket.cpp:172-227 | returns a message and its sender if and only if the last datagram taken completed it, an error if and only if the network stack gave it, closed if and only if shut down; all datagrams before were handled without a message, and the state is that of the run over them |
| Sending.AttemptsAreAPrefix | ecaludp/src/socket.cpp:112-118 | all attempts but the last succeeded; success if and only if every send did, and then all were attempted |
| Sending.SendList | ecaludp/src/socket.cpp:112-119 | attempts that prefix in order and returns the bytes sent and the error |
| Sending.AsyncSendList | ecaludp/src/socket.cpp:44-68 | attempts the same prefix and calls the completion handler exactly once, with the same error |
| WaitThread.StepKeepsInv | ecaludp/src/async_udpcap_socket.cpp:71-176 | mutual exclusion, conservation of requests, no missed notification, no empty handler call: kept by every step |
| WaitThread.NoLostWakeup | ecaludp/src/async_udpcap_socket.cpp:77-147 | if the wait thread sleeps and no caller is between its change and its notify, the queue is empty and the socket open |
| WaitThread.RequestsAreConserved | ecaludp/src/async_udpcap_socket.cpp:71-174 | accepted requests are handled, then at most one in flight, then queued, in order and each at most once |
| WaitThread.ExitLosesAtMostOne | ecaludp/src/async_udpcap_socket.cpp:149-158 | the thread exits with an empty queue, and all accepted requests but the one popped in that iteration were handled |
| WaitThread.AllHandledIff | ecaludp/src/async_udpcap_socket.cpp:71-176 | from any reachable closed state, every execution to the exit, new calls included, gets all requests queued and handled if and only if at the start none was queued, popped and undecided or under way to the queue, and none is made later |
| WaitThread.OnlyTheLastUnhandled | ecaludp/src/async_udpcap_socket.cpp:137-176 | with none under way and none made later, all are handled, or exactly the last one is not |
| WaitThread.AnyNumberUnhandled | ecaludp/src/async_udpcap_socket.cpp:71-158 | any number of calls that began before the close can go unhandled, their requests queued after the wait thread has exited |
| WaitThread.LastRequestUnhandled | ecaludp/src/async_udpcap_socket.cpp:149-158 | it happens: a reachable state in which the handler of a request accepted before the close is never called |
| WaitThread.NoDeadlock | ecaludp/src/async_udpcap_socket.cpp:128-158 | after the close some thread can take a step until the wait thread has exited |
| WaitThread.ExitsAfterClose | ecaludp/src/async_udpcap_socket.cpp:128-158 | after the close, without new calls, every schedule ends after boundedly many steps with the wait thread exited |
| WaitThread.IterationsAreBounded | ecaludp/src/async_udpcap_socket.cpp:139-175 | without new calls at most one handler runs per request in flight, queued or about to be pushed |

## Left out

- DatagramDescription is a value in a sequence whose last element is replaced; that the gather list points into the header vector and the user's buffers, which must outlive the sends, is not modelled.
- Received fragments are byte values; that they share the memory of the received datagrams until the message is delivered is not modelled.
- DatagramBuilder.CreateDatagramList: requires a size limit of at most `INT_MAX` when it fragments, because the conversion to `int` beyond that is implementation-defined.
- DatagramBuilder.CreateFragmentedDatagramList: on a direct call, requires a size limit above H, since at H the source divides by zero and below it the room left in a datagram underflows; and of at most `INT_MAX`, as above.
- WaitThread: the receive call of the socket below returns; `bind`, which may start a new wait thread after an old one has exited, is not modelled.
- Sending: the oracle of send errors is fixed in advance; `asio`'s own queues and cancellation are not modelled.
- The asynchronous receive (`ecaludp/src/socket.cpp:229-277`): the same step as the receive loop, re-armed by the completion handler.
- `SocketNpcap`: its datagram handling is a copy of that of `Socket`.
- Uniqueness of message ids: the code cannot guarantee it. Two messages of one sender that are under way with the same id share one entry, and the theorems about one message do not apply to them.
- Socket options, binding, multicast, the Npcap helpers, error texts, allocation failure, and the copy and move operations of `RawMemory`.
- `ecaludp/src/protocol/header_v6.h`: not used by the code.
