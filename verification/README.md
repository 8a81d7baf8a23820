# crs, modelled and verified in Dafny

`crs` is a C++ library of small stateful pieces: a ring of memory and file pools that a background
thread swaps, an interval map, a disjoint set, a message framing layer, an INI reader and writer, a
heap, a serial packet layer, a semaphore and a barrier, a reference-counted handle and a
least-squares line. Each piece keeps a state that is supposed to stand for something simple. The
modules here write out both, the state as the source updates it and the thing it stands for, and
prove that they agree: for every input, every run and every interleaving.

Objects that the source updates in place are classes with the source's fields, and the source's
loops are loops. A method's contract ties the new state to a function of the old one; what the
source promises is then proved about those functions, as lemmas. Threads are modelled as state
machines: a region under one lock is one step, and the theorems quantify over all runs of steps.

| module | models | main results |
|---|---|---|
| `Sequences` | | laws of concatenation |
| `Bits`, `RingMetrix` | the masks and iterators of `ring_pool` | `PositionsAreABijection`, `RootSizeIsLeastPowerExactly`, `IteratorsAgreeWithPushOrder`, `ValidateReseatsExactlyTheLost` |
| `RingProtocol` | producer and swapper as one state machine | `ReadersSeeThePushedRecords`, `RecentRecordsStayReadable`, `SizeIsUnambiguous`, `TokenWithinEightSteps` |
| `RingPool` | the same ring as objects, step by step | every method refines its step of `RingProtocol` |
| `IntervalMap` | `crs/interval_map.h` | `RunDenotesItsUpdates`, `CanonicalIsUnique`, `CanonicalIsMinimal`, `SameMeaningSameEntries` |
| `DisjointSet` | `crs/disjoint_set.cpp` | `JoinIsRight`, `ConnectedIsTheClosure`, `ClassesAreRoots`, `DepthIsLogarithmic` |
| `MessageFraming` | `crs/simplenetpoint.cpp` | `DecodedInFullExactly`, `DeframePrefix`, `Sender.OnTheWire`, `EndToEnd` |
| `IniFile` | `crs/oio/iniFile.cpp` | `ReadsBackExactly`, `EveryVariableLine`, `HeaderIsRead`, `PartitionIsStable` |
| `Heap` | `crs/heap.h` | `Heap.Insert`, `Heap.Remove`, `Heap.Get`, `DrainSorts` |
| `SerialPackets` | `crs/sc/serialbyte.h`, `crs/sc/basic.rs232port.cpp` | `RunRoutesAcceptedBlocks`, `RunRoutesEveryBlockOnce`, `RepliesExactly` |
| `Semaphore`, `Barrier` | `crs/semaphore.*`, `crs/barrier.*` | `TokensAreConserved`, `SafeExactlyForSinglePosts`, `BarrierOpensExactlyAtCount`, `EveryArrivalIsAccountedFor` |
| `Handle` | `crs/handle.h` | the counting invariant `World.Valid`, kept by every operation |
| `Regression`, `Parabola` | `crs/math/interpolation.cpp` | `DiscriminantIsPositiveExactly`, `FittedLineIsBest`, `ResidualsVanishExactly`, `ParabolaIsUnique` |

## Where the code falls short of its promise

Each of these is proved: a counterexample where one is instructive, and the exact condition under
which the promise holds.

- The root size of a ring is meant to be the least power of two above the request. The scan for it
  starts below the top bit, so a large request can fall through to a tiny ring; the requests that are
  honoured are exactly those of `RootRequestHonoured` (`RootSizeIsLeastPowerExactly`,
  `LargeRootRequestFallsThrough`).
- The iterator difference is a 32-bit `int`; it is the distance in push order exactly when that fits
  (`IteratorsAgreeWithPushOrder`, `FarPositionsHaveNegativeDifference`). So is the size of a ring
  (`RingPool.Size`).
- A message without contents stops the receiver for good, so a stream is delivered in full exactly
  when no message is empty (`DecodedInFullExactly`, `DeliveryEndsAtTheFirstEmpty`). A failed send of
  such a message's empty contents leaves the sender in a state from which it goes on with the wrong
  bytes; this is the one call after which `Sender.Valid` is lost (`Sender.Transmit`,
  `SizeOfEmptyMessageIsDueTwice`).
- A `post` of several tokens wakes one thread only. Sleepers are safe in all runs exactly when no
  post adds more than one token (`SafeExactlyForSinglePosts`, `LargePostStrandsASleeper`).
- A printed INI file reads back exactly when its entries are well formed, there is one, and the last
  section is not empty (`ReadsBackExactly`, for every list of entries). Well formed means free of
  separators where they would cut: line by line this is exactly what reads back
  (`VarRoundTripExactly`, `HeaderRoundTripExactly`). `PrintedTextReadsAs` and `EmptyFileReadsAs` say
  what well-formed entries read as otherwise.
- `parabola::ipBuild` divides by `x[0] + x[1]`, so it refuses points that a parabola does pass
  through; another order of the same points is accepted (`Parabola.IpBuild`,
  `SymmetricPointsAreRefused`, `RefusedForTheirOrder`).
- `heap::remove` with an index out of range removes the last entry (`Heap.Remove`).

## Model

| member | source | states |
|---|---|---|
| RingMetrix.BitMaskCalculator | crs/msdc/ring_pool.cpp:33-85 | The five mask fields form a shape: 2^s places to a pool, 2^r slots, masks of ones, s and r given by the two exponents, within 64 bits |
| RingMetrix.ScanPool | crs/msdc/ring_pool.cpp:42-59 | The downward scan finds the position of the highest set bit at place 7 or above, else 8 |
| RingMetrix.ScanRoot | crs/msdc/ring_pool.cpp:66-81 | The second scan sees only the bits below the top one: the mask has as many ones as the low part of the request has digits, or all places when that part is zero |
| RingMetrix.PoolSizeIsLeastPower | crs/msdc/ring_pool.cpp:42-59 | The pool size is the larger of 256 and the least power of two above the request |
| RingMetrix.RootSizeIsLeastPowerExactly | crs/msdc/ring_pool.cpp:61-81 | The root size is the least power of two above the request if and only if the request is one of those honoured |
| RingMetrix.LargeRootRequestFallsThrough | crs/msdc/ring_pool.cpp:68-78 | A request of 2^55 + 1 slots with 256 records each gives a ring of two slots, where 2^56 is the least power above it |
| RingMetrix.RootExponentByBits | crs/msdc/ring_pool.cpp:61-82 | The exponent of the root size for every request, bit by bit: the highest bit set below the top place, or all the room when there is none or the request would fill it |
| RingMetrix.MasksAreArithmetic | crs/msdc/ring_pool.h:72-85 | Slot, offset and full index are quotient and remainders by the pool size, the root size and their product, which is usedBits + 1 |
| RingMetrix.PositionsAreABijection | crs/msdc/ring_pool.h:72-85 | (root_idx, pool_idx) is one to one from the positions 0..usedBits onto slots times offsets |
| RingMetrix.MaskedWrap | crs/msdc/ring_pool.h:82-85 | Masking undoes the wrap-around of size_t, for negative differences too |
| RingMetrix.Iterator.Increment | crs/msdc/ring_pool.h:275-280 | In every ring the iterator stands one position behind the one it stood for, though the unmasked index wraps at 2^64; the cached record is invalid |
| RingMetrix.Iterator.Decrement | crs/msdc/ring_pool.h:282-287 | In every ring the iterator stands one position before the one it stood for, though the index wraps below zero; the cached record is invalid |
| RingMetrix.Iterator.AddAssign | crs/msdc/ring_pool.h:303-308 | In every ring the iterator stands i positions behind the one it stood for, for negative i too; the cached record is invalid |
| RingMetrix.IteratorMoves | crs/msdc/ring_pool.h:275-325 | A moved iterator stands for the position moved by the same distance, across both wrap-arounds |
| RingMetrix.DistanceFromBegin | crs/msdc/ring_pool.h:327-333 | The masked distance from begin is the distance between absolute positions |
| RingMetrix.IteratorsAgreeWithPushOrder | crs/msdc/ring_pool.h:327-369 | For readable positions < and == are order and equality in the push order, and - is their distance if and only if it fits an int |
| RingMetrix.CastIsResidue | crs/msdc/ring_pool.h:327-333 | The int that a size_t is cut to has its residue modulo 2^32 and lies within 32 bits |
| RingMetrix.FarPositionsHaveNegativeDifference | crs/msdc/ring_pool.h:327-333 | In a ring of 2^32 places the difference of two readable positions 2^31 apart is -2^31 |
| RingMetrix.ValidateReseatsExactlyTheLost | crs/msdc/ring_pool.cpp:215-232 | On a non-empty ring the test of validate is true exactly for the iterators that stand for no position from begin to end |
| RingProtocol.InitEstablishesInv | crs/msdc/ring_pool.cpp:112-150 | A fresh ring of N records by R slots with M memory pools satisfies the invariant |
| RingProtocol.StepKeepsInv | crs/msdc/ring_pool.cpp:170-213 | Every step of either thread, from any state that satisfies it, keeps the invariant: token balance, flags, positions, which slots hold which pools, and the records readable |
| RingProtocol.WriteKeepsInv | crs/msdc/ring_pool.cpp:202-206 | Writing a record keeps the invariant |
| RingProtocol.AdvanceSlotKeepsInv | crs/msdc/ring_pool.cpp:207 | Moving on to the next slot keeps the invariant |
| RingProtocol.AdvanceEndKeepsInv | crs/msdc/ring_pool.cpp:211-212 | Moving the masked end keeps the invariant |
| RingProtocol.ProducerFlagStepKeepsInv | crs/msdc/ring_pool.cpp:208-209 | Taking the token and each half of Resume keep the invariant |
| RingProtocol.SwapperFlagStepKeepsInv | crs/bits/posix.thread.cpp:62-102 | Testing the activation flag, sleeping and waking, each half of Stop, and returning the token keep the invariant |
| RingProtocol.AdvanceBeginKeepsInv | crs/msdc/ring_pool.h:146-161 | Moving begin off the slot about to be overwritten keeps the invariant; it happens exactly when that slot has been used before |
| RingProtocol.CopyKeepsInv | crs/msdc/ring_pool.cpp:189-191 | Copying the memory pool over the file pool loses no readable record |
| RingProtocol.ExchangeKeepsInv | crs/msdc/ring_pool.cpp:192-198 | Exchanging the two pools, clearing the memory pool and moving both indexes on loses no readable record |
| RingProtocol.RunKeepsInv | crs/msdc/ring_pool.cpp:170-213 | The invariant holds after every interleaving of steps |
| RingProtocol.Occupancy | crs/msdc/ring_pool.cpp:202-244 | Between begin and end lie at most R*N - 1 records, and at least all of them or (R-M)*N - 1 |
| RingProtocol.ReadersSeeThePushedRecords | crs/msdc/ring_pool.cpp:170-213 | In every reachable state, reading the slot and offset of any position from begin to end gives the record pushed at that position |
| RingProtocol.SizeIsUnambiguous | crs/msdc/ring_pool.cpp:234-244 | In every reachable state the masked size is the number of readable records, and begin and end coincide exactly when there are none |
| RingProtocol.RecentRecordsStayReadable | crs/msdc/ring_pool.cpp:170-213 | The last (R-M)*N - 1 records pushed are always readable, and read as pushed |
| RingProtocol.RecentIsTheNewest | crs/msdc/ring_pool.cpp:252-264 | On a non-empty ring recent() reads the last record whose push has completed |
| RingProtocol.SwapFindsItsPools | crs/msdc/ring_pool.cpp:189-191 | Both casts of _swap succeed, the memory pool copied is full, and no swap begins without a filled slot |
| RingProtocol.ProducerWritesIntoMemory | crs/msdc/ring_pool.cpp:202-206 | The producer only writes into a memory pool with room, one that no swap is touching |
| RingProtocol.WaitingProducerIsServed | crs/bits/posix.thread.cpp:56-102 | While the producer waits without a token the swapper is active or inside a swap, can step, and every step brings the token one step closer |
| RingProtocol.TokenWithinEightSteps | crs/msdc/ring_pool.cpp:199-210 | From every invariant state with a waiting producer at most eight steps of the swapper alone leave a token |
| RingProtocol.ResumesCoalesce | crs/bits/posix.thread.cpp:56-102 | Resume calls really coalesce: in some reachable state the swapper sleeps, un-notified, with a filled slot not yet swapped |
| RingPool.PoolObject.Push | crs/msdc/pools.cpp:60-64 | The record is stored at nCount, which moves on; the result says whether the pool is full |
| RingPool.PoolObject.Assign | crs/msdc/pools.cpp:123-129 | The loop copies the whole storage and the count of the memory pool |
| RingPool.PoolObject.Clear | crs/msdc/pools.cpp:35-38 | Clearing forgets the count and keeps the storage |
| RingPool.PoolObject.Get | crs/msdc/pools.cpp:66-69 | The record stored at place i |
| RingPool.MakePools | crs/msdc/ring_pool.cpp:133-140 | The loop builds memory pools first, then file pools, all with a storage of their own |
| RingPool.RingPool.constructor | crs/msdc/ring_pool.cpp:112-150 | A fresh ring has as many memory pools as asked for but at least two, in the first slots, file pools in the others, all empty and of the size the masks give, a token for each memory pool but one, and is the initial state of the protocol |
| RingPool.RingPool.MaskedPlaces | crs/msdc/ring_pool.h:72-85 | The masks and shifts compute the places the protocol speaks of |
| RingPool.RingPool.Write | crs/msdc/ring_pool.cpp:202-206 | Implements the protocol's write on the masked pool, in place; full exactly when the pool is |
| RingPool.RingPool.AdvanceSlot | crs/msdc/ring_pool.cpp:207 | Implements moving on to the next slot by masking |
| RingPool.RingPool.Acquire | crs/msdc/ring_pool.cpp:208 | Implements taking a token |
| RingPool.RingPool.SetActivate | crs/bits/posix.thread.cpp:56-59 | Implements the first half of Resume |
| RingPool.RingPool.Wake | crs/bits/posix.thread.cpp:74-82 | Implements the second half of Resume |
| RingPool.RingPool.AdvanceEnd | crs/msdc/ring_pool.cpp:211-212 | Implements moving the masked end |
| RingPool.RingPool.Check | crs/bits/posix.thread.cpp:86-95 | Implements the swapper's test of its activation flag, read from the field: the result says whether it goes on to a step or to sleep |
| RingPool.RingPool.WakeUp | crs/bits/posix.thread.cpp:95-98 | Implements leaving the wait and clearing the wake-up flag |
| RingPool.RingPool.ClearActivate | crs/bits/posix.thread.cpp:62-64 | Implements the first half of Stop |
| RingPool.RingPool.SelfWake | crs/bits/posix.thread.cpp:65-66 | Implements the second half of Stop, which wakes the swapper itself |
| RingPool.RingPool.IncrementBeginIter | crs/msdc/ring_pool.h:146-161 | Implements moving begin; true exactly when begin leaves a slot |
| RingPool.RingPool.Copy | crs/msdc/ring_pool.cpp:189-191 | Implements the copy from memory to file pool, changing no other pool |
| RingPool.RingPool.Exchange | crs/msdc/ring_pool.cpp:192-198 | Implements exchange, clear and increment; no two slots ever share a pool |
| RingPool.RingPool.Release | crs/msdc/ring_pool.cpp:199 | Implements returning the token |
| RingPool.RingPool.Get | crs/msdc/ring_pool.h:134-138 | An index of any size that masks to a readable position gives the record pushed there |
| RingPool.RingPool.Size | crs/msdc/ring_pool.cpp:234-238 | The int returned is the number of readable records if and only if that number is below 2^31 |
| RingPool.RingPool.Empty | crs/msdc/ring_pool.cpp:240-244 | True exactly when no record is readable |
| RingPool.RingPool.Recent | crs/msdc/ring_pool.cpp:252-264 | On a non-empty ring the index stands for the newest record |
| RingPool.RingPool.Validate | crs/msdc/ring_pool.cpp:215-232 | An iterator is moved to begin exactly when the ring is not empty and it stands for no position from begin to end; otherwise it is untouched |
| IntervalMap.AssignedRepresents | crs/interval_map.h:97-143 | assign keeps the keys strictly sorted with the least key first |
| IntervalMap.AssignedIsCanonical | crs/interval_map.h:97-143 | assign leaves no two neighbours of equal value, in all boundary and overlap cases |
| IntervalMap.AssignRefinesUpdate | crs/interval_map.h:87-143 | If the entries denote f, after assign they denote f updated on [begin, end) |
| IntervalMap.LookupAfterAssign | crs/interval_map.h:97-151 | A lookup after assign gives the new value inside [begin, end) and the old lookup everywhere else |
| IntervalMap.LookupInInterval | crs/interval_map.h:148-151 | The entry used by a lookup is the one whose interval contains the key |
| IntervalMap.BoundaryIsNeeded | crs/interval_map.h:41-43 | Every boundary of a canonical map is a boundary of every map for the same function |
| IntervalMap.CanonicalIsUnique | crs/interval_map.h:41-43 | Two canonical maps that denote the same function have the same entries |
| IntervalMap.CanonicalIsMinimal | crs/interval_map.h:41-43 | No representation of a function has fewer entries than its canonical one |
| IntervalMap.RunDenotesItsUpdates | crs/interval_map.h:80-143 | After any run of assigns the entries are canonical and denote the initial constant with all the updates applied |
| IntervalMap.SameMeaningSameEntries | crs/interval_map.h:153-156 | Runs that denote the same function end in the same entries, so size does not depend on the history |
| IntervalMap.IntervalMap.constructor | crs/interval_map.h:80-85 | One entry at the least key |
| IntervalMap.IntervalMap.Assign | crs/interval_map.h:97-143 | The in-place insertions and the erasure give the entries of the specification; true exactly for a non-empty interval |
| IntervalMap.IntervalMap.InsertBounds | crs/interval_map.h:104-119 | After both insertions the map has entries at both bounds, the right one with the value looked up there before |
| IntervalMap.IntervalMap.EraseCovered | crs/interval_map.h:121-141 | The moving iterators delimit exactly the covered entries and the bounds that repeat a neighbour |
| IntervalMap.IntervalMap.Get | crs/interval_map.h:148-151 | The value of the lookup |
| IntervalMap.IntervalMap.Size | crs/interval_map.h:153-156 | The number of entries, and no representation of the function denoted has fewer |
| DisjointSet.FindKeepsRoots | crs/disjoint_set.cpp:39-55 | Compressing the path of one element changes no element's root |
| DisjointSet.FindKeepsClasses | crs/disjoint_set.cpp:39-55 | find changes no root, rank or class, and keeps the balance |
| DisjointSet.RootRank | crs/disjoint_set.cpp:39-82 | Ranks rise along parent links: rank plus depth of an element is at most its root's rank |
| DisjointSet.DepthIsLogarithmic | crs/disjoint_set.cpp:39-55 | 2^depth never exceeds the number of elements |
| DisjointSet.LinkMovesOneClass | crs/disjoint_set.cpp:67-79 | Linking two roots moves exactly the elements of both classes to the winner |
| DisjointSet.LinkKeepsBalance | crs/disjoint_set.cpp:67-79 | Union by rank keeps ranks rising and 2^rank(root) at most the size of its class |
| DisjointSet.LinkDropsOneRoot | crs/disjoint_set.cpp:67-81 | Linking leaves exactly one root fewer |
| DisjointSet.FindRepresents | crs/disjoint_set.cpp:39-55 | find leaves the represented relation alone |
| DisjointSet.LinkRepresents | crs/disjoint_set.cpp:67-79 | Merging two classes represents the equivalence closure with one more pair |
| DisjointSet.JoinIsRight | crs/disjoint_set.cpp:57-82 | join keeps the forest, its balance, and that equal roots mean related by the closure of the joined pairs; one root disappears exactly when the two were unrelated |
| DisjointSet.ClassesAreRoots | crs/disjoint_set.cpp:28-32 | There are as many classes of the relation, singletons included, as roots |
| DisjointSet.ConnectedIsTheClosure | crs/disjoint_set.cpp:57-82 | The relation represented is the equivalence closure of the joined pairs: two elements are related exactly when every equivalence containing the pairs relates them |
| DisjointSet.DisjointSet.constructor | crs/disjoint_set.cpp:28-32 | A fresh set represents the empty relation |
| DisjointSet.DisjointSet.Clear | crs/disjoint_set.cpp:84-88 | Clearing forgets every joined pair |
| DisjointSet.DisjointSet.MakeSet | crs/disjoint_set.cpp:34-37 | An unset element or a root becomes its own root, as find would leave it |
| DisjointSet.DisjointSet.Find | crs/disjoint_set.cpp:39-55 | The pointer-chasing loop finds the root in at most log2(n) rounds; an element has that root exactly when it is related to vx |
| DisjointSet.DisjointSet.Join | crs/disjoint_set.cpp:57-82 | The pair is added to the relation, and the group counter drops exactly when the two were unrelated |
| DisjointSet.DisjointSet.NGroups | crs/disjoint_set.cpp:57-88 | The group counter is the number of classes of the equivalence closure |
| MessageFraming.IntRoundTrip | crs/simplenetpoint.cpp:145-146 | A size that fits its bytes comes back from them |
| MessageFraming.BytesRoundTrip | crs/simplenetpoint.cpp:209-220 | Size bytes of any value are the encoding of the size they decode to |
| MessageFraming.EncodedDigit | crs/simplenetpoint.cpp:145-146 | Byte i of a size is its digit i to the base 256 |
| MessageFraming.DecodedPlaces | crs/simplenetpoint.cpp:209-220 | Each byte of a size counts for its place, 256 times the one before |
| MessageFraming.MessageOnTheWire | crs/simplenetpoint.cpp:141-154 | A message is eight bytes with the digits of its length, then its bytes |
| MessageFraming.BytesToMessage | crs/simplenetpoint.cpp:192-221 | Eight bytes with the digits of n and n more are delivered as a message of these n bytes; a size of zero ends delivery |
| MessageFraming.DeframeWholeStream | crs/simplenetpoint.cpp:177-223 | Decoding the encodings of messages gives those before the first empty one |
| MessageFraming.DecodedInFullExactly | crs/simplenetpoint.cpp:177-223 | A whole stream decodes to all its messages if and only if none is empty |
| MessageFraming.DeliveryEndsAtTheFirstEmpty | crs/simplenetpoint.cpp:213-219 | Whatever follows it, the messages before the first empty one are delivered and no other |
| MessageFraming.EmptyMessageStopsDelivery | crs/simplenetpoint.cpp:213-219 | After an empty message nothing more is delivered |
| MessageFraming.DeframePrefix | crs/simplenetpoint.cpp:177-223 | Any prefix of a stream decodes to a prefix of its messages |
| MessageFraming.EndToEnd | crs/simplenetpoint.cpp:108-223 | What is delivered is always a prefix of what was queued; with all bytes in, it is all of it if and only if no message is empty |
| MessageFraming.Sender.SendMessage | crs/simplenetpoint.cpp:108-114 | The message joins the queue; the bytes emitted stay a prefix of the encodings of all queued messages |
| MessageFraming.Sender.NextRegion | crs/simplenetpoint.cpp:131-156 | With no byte left the sender goes on to the contents, to the next message, or reports that nothing is queued |
| MessageFraming.Sender.Transmit | crs/simplenetpoint.cpp:129-175 | For any number of bytes the socket accepts, the bytes emitted stay a prefix of the encodings and grow by those sent; region, place and outbox afterwards are stated for every outcome; the state is lost only by a failed send of empty contents |
| MessageFraming.Sender.OnTheWire | crs/simplenetpoint.cpp:129-175 | Every byte emitted, by its place: message k starts behind all those before it, with the digits of its length and then its bytes |
| MessageFraming.SizeOfEmptyMessageIsDueTwice | crs/simplenetpoint.cpp:129-160 | With one empty message queued, its size sent and then a failing socket, all bytes of the queue are out and the size is due again |
| MessageFraming.Sender.FinishMessage | crs/simplenetpoint.cpp:165-173 | A message leaves the outbox when its contents are out in full |
| MessageFraming.Sender.Want2Transmit | crs/simplenetpoint.cpp:225-229 | True exactly while bytes remain to be sent, or an empty message has only its size out |
| MessageFraming.Receiver.Receive | crs/simplenetpoint.cpp:177-223 | For any part of the wanted bytes, what is delivered is what the reference decoder finds in all bytes received; after an empty message no call makes progress |
| MessageFraming.Receiver.RegionFull | crs/simplenetpoint.cpp:192-221 | With a region full the receiver goes on to the contents or delivers the message |
| MessageFraming.Receiver.DeliveredIsDeframed | crs/simplenetpoint.cpp:177-223 | In every valid state the messages delivered are those of the reference decoder |
| MessageFraming.Receiver.RecvMessage | crs/simplenetpoint.cpp:116-127 | Messages are taken in the order delivered, each once |
| IniFile.FirstChar | crs/oio/iniFile.cpp:52-59 | The loop drops exactly the leading white space |
| IniFile.CutAt | crs/oio/iniFile.cpp:39-50 | Cutting splits at the first separator, or nowhere |
| IniFile.WhiteSpace | crs/oio/iniFile.cpp:52-59 | White space is blank, tab, newline, vertical tab, form feed and return |
| IniFile.EveryRawLine | crs/oio/iniFile.cpp:227 | A line is cut at the first CR and loses exactly the white space at its start |
| IniFile.EveryVariableLine | crs/oio/iniFile.cpp:103-113 | How every line is read: a name up to the first = or ;, contents from there to the first NUL or ;, a description behind the first ; |
| IniFile.EveryHeaderLine | crs/oio/iniFile.cpp:331-342 | How every header line is read: a name up to the first ] or ;, a description behind the first ; |
| IniFile.EveryPrintedLine | crs/oio/iniFile.cpp:142-167 | The line printed, for each combination of empty and other fields |
| IniFile.VarRoundTrip | crs/oio/iniFile.cpp:103-167 | A printed variable is no header and reads back with its name, contents and description |
| IniFile.HeaderRoundTrip | crs/oio/iniFile.cpp:286-342 | A printed section header reads back with its name and description |
| IniFile.VarRoundTripExactly | crs/oio/iniFile.cpp:103-167 | A variable comes back from its printed line if and only if no field holds what would be cut off or mistaken |
| IniFile.HeaderRoundTripExactly | crs/oio/iniFile.cpp:286-342 | A section header comes back from its printed line if and only if its name and description hold nothing that would be cut off |
| IniFile.ReadVariableIsUncut | crs/oio/iniFile.cpp:103-140 | Whatever is read from a line that is no header has no separator left in a field where it would cut |
| IniFile.ReadHeaderIsUncut | crs/oio/iniFile.cpp:330-342 | Whatever is read from a header has no separator left in its name |
| IniFile.SplitJoin | crs/oio/iniFile.cpp:268-279 | Lines joined by newlines are the lines getline gives back |
| IniFile.SectionIsRead | crs/oio/iniFile.cpp:200-250 | Any lines up to the next header are read as variables of the section; a header on the very last line is lost |
| IniFile.VariablesAreRead | crs/oio/iniFile.cpp:316-367 | Any lines that are no headers are read as variables, one by one |
| IniFile.HeaderIsRead | crs/oio/iniFile.cpp:331-356 | A header and any lines up to the next header are read as one section |
| IniFile.NameAloneIsRead | crs/oio/iniFile.cpp:108-112 | A line that is a name alone is read as a variable without contents, wherever it stands among the variables |
| IniFile.SectionReadsBack | crs/oio/iniFile.cpp:200-250 | The variables of a section end where the next header begins, which is read again unless it is the last line |
| IniFile.VariablesReadBack | crs/oio/iniFile.cpp:316-367 | Variables at the start of a file are read one by one |
| IniFile.HubsReadBack | crs/oio/iniFile.cpp:316-367 | Sections read back one by one; an empty last one is lost after another and gains an empty variable alone |
| IniFile.PrintedTextReadsAs | crs/oio/iniFile.cpp:252-385 | What reading the printed text of any list of well-formed entries gives |
| IniFile.ReadsBackExactly | crs/oio/iniFile.cpp:252-385 | For every list of entries: the printed text reads back as their stable partition, every name, content and description kept, if and only if the entries are well formed, there is one, and the last section is not empty |
| IniFile.EmptyFileReadsAs | crs/oio/iniFile.cpp:308-370 | No entries print as no text, which reads as one empty variable |
| IniFile.GoodReadsBackExactly | crs/oio/iniFile.cpp:252-385 | Well-formed entries read back if and only if there is one and the last section is not empty |
| IniFile.FileIsUncut | crs/oio/iniFile.cpp:308-370 | Whatever entries a text reads as, none has a separator left where it would cut |
| IniFile.PrintedTextIsTheSame | crs/oio/iniFile.cpp:142-166 | Contents without a name are not printed: clearing them changes no text |
| IniFile.ReadBackIsGood | crs/oio/iniFile.cpp:252-385 | Entries that are read back are well formed |
| IniFile.PartitionIsStable | crs/oio/iniFile.cpp:252-266 | The partition keeps every entry and the order among variables and among sections; a second write prints the same text |
| IniFile.Stream.GetLine | crs/oio/iniFile.cpp:216-224 | The line up to the next newline is the next line of the text; at the end of the text nothing more comes |
| IniFile.ReadSection | crs/oio/iniFile.cpp:200-250 | The loop, with its roll back of the stream, reads the variables and leaves the lines that the line parser says; it reports the end exactly when none are left |
| IniFile.WriteVar | crs/oio/iniFile.cpp:142-167 | A variable prints as its line |
| IniFile.WriteHub | crs/oio/iniFile.cpp:282-303 | A section prints as its header and its variables, one to a line |
| IniFile.IniFile.Read | crs/oio/iniFile.cpp:308-370 | Reading appends what the line parser finds in the rest of the stream |
| IniFile.IniFile.MoveTo | crs/oio/iniFile.cpp:261-264 | The backward loop moves one entry in front, shifting those between by one place |
| IniFile.IniFile.MoveVariablesFirst | crs/oio/iniFile.cpp:252-266 | The in-place loops leave the stable partition of the list |
| IniFile.IniFile.Write | crs/oio/iniFile.cpp:252-280 | The text printed is that of the partition, and the list is left partitioned |
| Heap.Family | crs/heap.h:81-103 | The two index helpers are inverse: a child's ancestor is its parent |
| Heap.LevelByLevel | crs/heap.h:81-103 | Entry k has its children at 2k + 1 and 2k + 2 |
| Heap.RootIsLeast | crs/heap.h:167-172 | In a heap no entry is less than the first |
| Heap.Heap.BubbleUp | crs/heap.h:105-118 | An entry out of order only with its ancestors rises until the heap is in order; the result is where it now is |
| Heap.Heap.BubbleDown | crs/heap.h:120-144 | An entry out of order only with its descendants sinks until the first n entries are in order; the others stay |
| Heap.Heap.Insert | crs/heap.h:146-152 | Keeps heap order, adds exactly the value, and returns an index at which the value is |
| Heap.Heap.Remove | crs/heap.h:154-165 | Keeps heap order and removes exactly the entry at i, or the last one when i is out of range |
| Heap.Heap.Peek | crs/heap.h:167-172 | No entry is less than the one returned |
| Heap.Heap.Get | crs/heap.h:174-186 | Keeps heap order and removes exactly a least entry |
| Heap.ReplaceByLast | crs/heap.h:158-163 | Swapping an entry with the last one disturbs heap order only around its place |
| Heap.DrainSorts | crs/heap.h:174-186 | Any run of get down to the empty heap returns a sorted permutation of the entries |
| SerialPackets.SingleByteErrorIsDetected | crs/sc/serialbyte.h:84-91 | Changing any one byte of an intact packet makes its checksum wrong |
| SerialPackets.SumOfUpdate | crs/sc/serialbyte.h:84-91 | Replacing a byte changes the sum by the difference of the two |
| SerialPackets.SumOfZeros | crs/sc/serialbyte.h:84-91 | A packet of zeros adds up to zero |
| SerialPackets.CheckByte | crs/sc/serialbyte.h:75-91 | Exactly one last byte makes a packet intact |
| SerialPackets.BuildCRC | crs/sc/serialbyte.h:75-82 | The loop over the last byte leaves the packet intact and the other bytes alone |
| SerialPackets.CheckIdentity | crs/sc/serialbyte.h:84-91 | True exactly for intact packets |
| SerialPackets.ChunksDoNotMatter | crs/sc/basic.rs232port.cpp:70-86 | Cutting chunk by chunk with the rest carried over is cutting the whole stream |
| SerialPackets.BlocksAreStretches | crs/sc/serialbyte.h:362-365 | Block k is the k-th stretch of the size of a packet, and the rest is what follows the last |
| SerialPackets.BlocksAreWhole | crs/sc/serialbyte.h:356-384 | The blocks have the size of a packet and with the rest make up all the bytes |
| SerialPackets.TraceIsAnswer | crs/sc/serialbyte.h:252-263 | A packet answers a command if and only if the nibbles of the first bytes are exchanged and the second byte is the same or an error code from 0xAD on |
| SerialPackets.RepliesExactly | crs/sc/serialbyte.h:326-339 | A packet is taken as the reply if and only if one is awaited and it answers the command; otherwise it joins the inbox |
| SerialPackets.SyncPacketIsAllU | crs/sc/serialbyte.h:93-99 | A sync packet is one of letters U only |
| SerialPackets.RouteAllKeepsRouted | crs/sc/serialbyte.h:326-339 | Each packet goes, in order, to exactly one of the inbox and the pending reply |
| SerialPackets.RunRoutesEveryBlockOnce | crs/sc/serialbyte.h:298-384 | In any run of sends and reads with no sync awaited the packets routed are the consecutive blocks of the bytes, each once and in order, and the rest is carried over |
| SerialPackets.CompileUsesWholePackets | crs/sc/serialbyte.h:356-384 | Fewer bytes than a packet are left over, and no bytes are used unless there is a whole packet |
| SerialPackets.CompileRoutesAllBlocks | crs/sc/serialbyte.h:356-384 | With no sync packet awaited, or none among the blocks, every block is routed and the rest is left |
| SerialPackets.AwaitedSyncDropsTheRest | crs/sc/serialbyte.h:341-370 | At an awaited sync packet the blocks before it are routed and all bytes after it are dropped |
| SerialPackets.CompileByBlocks | crs/sc/serialbyte.h:356-384 | One read routes the blocks of the bytes held and read, up to an awaited sync packet, and leaves the rest of the stream, or nothing after that packet |
| SerialPackets.OnePacketRouted | crs/sc/serialbyte.h:326-384 | A read of one packet: an awaited sync packet ends the wait, an answer to the command is kept as the reply, any other packet joins the inbox |
| SerialPackets.RunRoutesAcceptedBlocks | crs/sc/serialbyte.h:298-402 | In any run of sends, reads and synchronisations the packets routed are the blocks accepted from the stream, each once and in order, and less than a packet is carried over |
| SerialPackets.QuietRunsAcceptTheStream | crs/sc/basic.rs232port.cpp:70-86 | With no sync packet awaited the blocks accepted are those of the whole stream, however it is chunked |
| SerialPackets.SerialPort.constructor | crs/sc/serialbyte.h:212-226 | A fresh port holds no bytes and awaits nothing |
| SerialPackets.SerialPort.Send | crs/sc/serialbyte.h:298-305 | The command is posted and its reply awaited |
| SerialPackets.SerialPort.BeginSynchronize | crs/sc/serialbyte.h:393-397 | No reply is awaited any more, a sync packet is; everything else stays |
| SerialPackets.SerialPort.Pop | crs/sc/serialbyte.h:233-239 | The oldest packet of the inbox is taken, if there is one |
| SerialPackets.SerialPort.Accept | crs/sc/serialbyte.h:326-339 | A packet that answers the pending command is kept as the reply and ends the wait, any other packet joins the inbox |
| SerialPackets.SerialPort.CompileResponse | crs/sc/serialbyte.h:356-384 | The loop routes the blocks and counts the bytes as the specification does |
| SerialPackets.SerialPort.MoveToFront | crs/sc/basic.rs232port.cpp:80 | The copy within the buffer never overlaps and keeps the bytes |
| SerialPackets.SerialPort.ProcessIncomingBytes | crs/sc/basic.rs232port.cpp:70-86 | The bytes read are cut and routed behind those held, and the rest moves to the front |
| SerialPackets.SerialPort.HandleRead | crs/sc/posix.rs232port.cpp:364-386 | After a read of any size the packets are routed and the rest is at the front; a read that makes up one packet is kept as the reply, ends the wait for a sync packet or joins the inbox, exactly as it should; with a buffer of at least a packet the next read has room |
| Semaphore.TokensAreConserved | crs/semaphore.cpp:35-49 | In every run, with time-outs and spurious wake-ups, counter = initial + effective posts - successful waits, within 0..MAX |
| Semaphore.PostAddsAndWakes | crs/semaphore.cpp:35-42 | A post adds its increment up to the maximum and wakes exactly one sleeper, if there is one |
| Semaphore.ThreadsAreConserved | crs/semaphore.h:43-65 | A thread enters a wait only without a token and leaves it only by running, with a token or because its time is up |
| Semaphore.ExpiredWaitLeaves | crs/semaphore.h:43-65 | Whatever the others do, a thread whose time is up leaves when it next runs, with a token exactly when there is one |
| Semaphore.ExpireMakesTimeUp | crs/semaphore.h:43-65 | A timed wait that expires is one whose time is up |
| Semaphore.StepStrandsNone | crs/semaphore.h:43-65 | A step that posts at most one token keeps: while an un-notified thread sleeps, the counter is at most the number of woken threads yet to run |
| Semaphore.RunStrandsNone | crs/semaphore.h:43-65 | The same over every run of single posts |
| Semaphore.LargePostStrandsASleeper | crs/semaphore.cpp:35-42 | After post(2) to two sleepers a token is left that the second never sees |
| Semaphore.SafeExactlyForSinglePosts | crs/semaphore.cpp:35-42 | No run with posts up to a bound strands a sleeper if and only if the bound is at most one |
| Semaphore.Semaphore.PostLocked | crs/semaphore.cpp:35-42 | The counter grows by the increment, saturating, and one sleeper is notified |
| Semaphore.Semaphore.EnterLocked | crs/semaphore.h:43-65 | A thread takes a token at once or goes to sleep |
| Semaphore.Semaphore.RerunLocked | crs/semaphore.h:43-65 | A woken thread takes a token, sleeps again, or gives up when its time is out |
| Barrier.StepKeepsInv | crs/barrier.cpp:34-50 | Every step keeps the invariant; an open barrier stays open, and only a timed wait on a closed one is refused |
| Barrier.ThreadsAreConserved | crs/barrier.cpp:34-50 | A thread enters a wait only at an arrival that neither finds the barrier open nor opens it, and leaves only by running, through the open barrier or refused when its time is up |
| Barrier.EveryArrivalIsAccountedFor | crs/barrier.h:42-78 | After every run each thread that arrived is inside, has passed or was refused |
| Barrier.RunKeepsInv | crs/barrier.cpp:34-50 | The same over every run, with time-outs and spurious wake-ups |
| Barrier.BarrierOpensExactlyAtCount | crs/barrier.cpp:34-50 | In every run the counter is zero exactly when cnt arrivals were counted, nobody passes before that, and from then on nobody sleeps un-notified |
| Barrier.OpenBarrierLetsEveryoneThrough | crs/barrier.h:42-78 | Once open, each thread that arrives or wakes passes |
| Barrier.Barrier.ArriveLocked | crs/barrier.cpp:34-50 | An arrival passes, opens the barrier for all, or goes to sleep; it passes only after cnt arrivals |
| Barrier.Barrier.RerunLocked | crs/barrier.h:42-78 | A woken thread passes exactly when the counter is zero |
| Handle.Handle.constructor | crs/handle.h:105-110 | A new handle is the one handle of its fresh target, or is unbound |
| Handle.Handle.Copy | crs/handle.h:112-117 | A copy is one more handle of the same target, with the same counter |
| Handle.Handle.Convert | crs/handle.h:119-130 | A conversion shares the counter when the cast succeeds and is unbound otherwise |
| Handle.Handle.Unbind | crs/handle.h:70-83 | The handle is no longer counted; counter and target are deleted, once, exactly when no handle is left |
| Handle.Handle.Take | crs/handle.h:85-93 | The handle joins those of a target that is still alive |
| Handle.Handle.Assign | crs/handle.h:95-102 | Every count is kept right when a handle moves from one target to another, self-assignment included |
| Handle.Handle.Renew | crs/handle.h:154-156 | A handle that has let go becomes the first one of a fresh target, with a new counter, or is unbound |
| Handle.Handle.Bind | crs/handle.h:149-158 | Rebinding lets the old target go and is the first handle of the new one; the same pointer changes nothing |
| Handle.Handle.Destroy | crs/handle.h:132-135 | A destroyed handle is no longer counted, and its target goes with the last one |
| Regression.DiscriminantGrows | crs/math/interpolation.cpp:173-176 | Each new point adds the squared distances of the earlier ones in x to q, the step of Lagrange's identity |
| Regression.DiscriminantIsPositiveExactly | crs/math/interpolation.cpp:173-176 | q is positive if and only if two points differ in x, and never negative |
| Regression.CoefficientsAreNormal | crs/math/interpolation.cpp:173-180 | The coefficients computed solve both normal equations |
| Regression.ResidualsGrow | crs/math/interpolation.cpp:75-81 | Each point adds the square of its distance from the line; no points add up to zero |
| Regression.ResidualsVanishExactly | crs/math/interpolation.cpp:75-81 | The sum of squared residuals is never negative, and zero if and only if every point lies on the line |
| Regression.ResidualsOfAnother | crs/math/interpolation.cpp:75-81 | The residuals of another line are those of the first plus a spread less twice the normal equations' slack |
| Regression.NormalIsLeastSquares | crs/math/interpolation.cpp:173-205 | A solution of the normal equations has the least sum of squared residuals, and with two distinct x it is the only line that has |
| Regression.FittedLineIsBest | crs/math/interpolation.cpp:173-205 | With two distinct x the fitted line is the unique best one |
| Regression.Line.RegressCalcCoefficients | crs/math/interpolation.cpp:173-180 | From the sums of any points, the coefficients of the best line, finite exactly when q is not zero |
| Regression.Line.RegressAddPoint | crs/math/interpolation.cpp:182-190 | Adding a point to a fit gives the same sums and line as one build from all points |
| Regression.Line.RegressBuild | crs/math/interpolation.cpp:192-205 | The loop's sums give the line of the points; the result is its sum of squared residuals, zero if and only if all points lie on it |
| Regression.Line.SumOfSquaredResiduals | crs/math/interpolation.cpp:75-81 | The loop computes the sum of squared residuals of the current line, zero if and only if all points lie on it |
| Parabola.FormulasPassThrough | crs/math/interpolation.cpp:255-267 | With no divisor zero the formulas give a parabola through all three points |
| Parabola.IpBuild | crs/math/interpolation.cpp:255-267 | The build succeeds if and only if the points are accepted, that is the x are distinct and x0 + x1 is not zero, and then passes through all three points |
| Parabola.ParabolaIsUnique | crs/math/interpolation.cpp:255-267 | At most one parabola passes through three points with distinct x |
| Parabola.SymmetricPointsAreRefused | crs/math/interpolation.cpp:257-259 | Points at -1, 1 and 0 are not accepted, though distinct and on a parabola |
| Parabola.RefusedForTheirOrder | crs/math/interpolation.cpp:255-267 | Distinct points that are refused are accepted with the last two exchanged, and the parabolas through them are the same |

## Left out

- RingPool.RingPool.constructor: asks for at least one file pool; a ring without any (as many memory
  pools as slots) is not modelled.
- Temporary files: a file pool is an array; failing to create or read one is not modelled.
- Ending the swapper thread (`kill`), its result and its error text; locks and condition variables
  of the operating system, whose regions are single steps of the state machines.
- The hooks `_release` and `_fixLink`, empty in `ring_pool`, and the field index of `cDAQCore` that
  overrides them; `upper_bound`, `lower_bound` and the other readers built on iterators.
- The older semaphore class that `ring_pool` takes its tokens from (`crs/semaphore.hpp`) is not part
  of this model: its `lock` and `unlock` are taken as one token down and one up.
- DisjointSet.DisjointSet.MakeSet: only for an element that is unset or a root; on an attached
  element the source detaches a whole subtree from its class.
- IntervalMap.IntervalMap.Get: keys below the least key, which the source cannot look up, do not
  occur because the order is taken to have a least key.
- MessageFraming.Receiver.Receive: the allocation of a huge message may fail in the source and does
  not here.
- MessageFraming.IntRoundTrip: the size travels in eight bytes, lowest first; a peer of another byte
  order or width is not modelled.
- Sockets, the event loop, callbacks and threads around the message layer.
- Sections within sections of an INI file: a section holds variables. Typed reading and writing of
  values, look-up by name and the sizes of entries are left out.
- IniFile.ReadSection: streams that fail for other reasons than their end are not modelled; white
  space is that of the C locale.
- Heap.Heap.Remove: on an empty heap the source removes the last entry of an empty vector, which is
  undefined; the model asks for an entry. The same holds for `Peek` and `Get`.
- The other ways to read the serial line (the loop's retries, and the other operating system's).
- The waiting halves of `comSection` and `synchronize` (their first halves are events of a run), the
  controller error codes of `comCheckPacket`, and writing to the serial line.
- SerialPackets.SerialPort.constructor: packets have at least two bytes, the two that the reply test
  reads.
- Semaphore.Semaphore.RerunLocked: time is a choice of the run: a timed wait may give up at any step
  that finds no token.
- Handle.Handle.constructor: a raw pointer is bound fresh here too, see the next line.
- Handle.Handle.Bind: a raw pointer is bound fresh, never while handles of another counter hold it;
  the source double-deletes otherwise. Handles held by the objects they manage are left out.
- Regression.Line.RegressBuild: exact reals stand for floating-point numbers; a fit with all x equal
  divides by zero in the source and is reported as not finite here.
- The regression of a parabola, polynomials of higher degree, and evaluation of derivatives.
