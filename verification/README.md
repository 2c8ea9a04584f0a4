# Verified model of nx_iree

A Dafny model of the parts of nx_iree, and of the IREE headers it ships, whose
correctness rests on ownership, protocols, word arithmetic or a byte format:

- `Status.dfy`, `StatusRuns.dfy`, `StatusEffects.dfy`, `StatusPrograms.dfy`: status words
  that own an error payload, the C++ classes `Status` and `StatusOr<T>` that move them,
  every run of their operations, the effect each operation has on words, payloads and
  values, and the execution of every run on the objects of those classes.
- `RefCount.dfy`: retain, release and destroy of HAL resources as an interleaving of
  atomic steps of any number of threads, with a count that wraps, and the object that
  every such interleaving drives.
- `Words.dfy`, `Alignment.dfy`, `NumberTheory.dfy`, `PageRanges.dfy`,
  `LittleEndian.dfy`: bit tricks, wrapping division, gcd and lcm, page covers and
  byte-wise stores, for every word width.
- `AllocatorStatistics.dfy`: counters and peaks against the whole history of events.
- `TensorWire.dfy`, `Tensors.dfy`, `TensorRuns.dfy`: the serialized tensor, the tensor
  object with its lazily filled host block, and every run of its operations.
- `Calls.dfy`: calling a compiled function, and the byte-level call that refines it.
- `ElementTypes.dfy`, `TypedArrays.dfy`: packed element types and JavaScript arrays.
- `Devices.dfy`: listing drivers and devices.

Objects that the source updates in place are classes; each method states its new
state through functions on values, and the theorems about runs are about those
functions.  What the library or the device decides (an allocation succeeding, the
contents of fresh memory, a transfer failing, the address of a block) is a parameter.

Where the code and its comments disagree the model follows the code: the wire order is
type, size, data, rank, dims (cmake/src/runtime.h:82 says otherwise), and the comments on
the page start and end functions (alignment.h:224 and 230) are swapped.  Some properties
one would expect hold only under a condition; the lemmas whose names end in `Iff`,
`SafeIffNoOverflow`, `LcmIsExactIffItFits` and `AlignIsLeastMultiple` give it exactly.

`dafny verify dfyconfig.toml` checks everything.

## Model

| member | source | states |
|---|---|---|
| `StatusWords.EncodingAgrees` | embedded_devices/live_nx_iree/native/swiftui/LiveNxIREE/nx_iree/include/iree/base/status.h:157-184 | On every machine word of at least five bits, masking with 0x1F and with its complement yields the code and the payload address, zero is the only OK word, and re-masking the code gives what a move leaves behind |
| `StatusWords.EveryWordDecodes` | embedded_devices/live_nx_iree/native/swiftui/LiveNxIREE/nx_iree/include/iree/base/status.h:160-176 | Each machine word is the encoding of exactly one pair of payload address and code |
| `StatusWords.ResidueKeepsOkIff` | embedded_devices/live_nx_iree/native/swiftui/LiveNxIREE/nx_iree/include/iree/base/status_cc.h:140-146 | A move leaves its source OK exactly when it was, if and only if the word does not pair the OK code with a payload; the word with payload 32 and the OK code is a case where it does not |
| `StatusObjects.Memory.Ignore` | embedded_devices/live_nx_iree/native/swiftui/LiveNxIREE/nx_iree/include/iree/base/status.h:461-463 | `iree_status_ignore` frees the payload, if any, and yields the OK word |
| `StatusObjects.Status.constructor` | embedded_devices/live_nx_iree/native/swiftui/LiveNxIREE/nx_iree/include/iree/base/status_cc.h:132-133 | A default status is OK |
| `StatusObjects.Variable.Exchange` | embedded_devices/live_nx_iree/native/swiftui/LiveNxIREE/nx_iree/include/iree/base/status_cc.h:31-36 | Returns the old word and stores the new one |
| `StatusObjects.Memory.Allocate` | embedded_devices/live_nx_iree/native/swiftui/LiveNxIREE/nx_iree/include/iree/base/status.h:426-434 | A payload at the address the allocator picks, or the bare code without storage |
| `StatusObjects.Status.FromVariable` | embedded_devices/live_nx_iree/native/swiftui/LiveNxIREE/nx_iree/include/iree/base/status_cc.h:135-138 | Takes the whole word out of the C variable and leaves it the bare code |
| `StatusObjects.Status.Move` | embedded_devices/live_nx_iree/native/swiftui/LiveNxIREE/nx_iree/include/iree/base/status_cc.h:140-146 | Both move constructors take the word and leave the source its code without the payload |
| `StatusObjects.Status.OfCode` | embedded_devices/live_nx_iree/native/swiftui/LiveNxIREE/nx_iree/include/iree/base/status_cc.h:156-163 | A status from a code has no payload |
| `StatusObjects.Status.WithMessage` | embedded_devices/live_nx_iree/native/swiftui/LiveNxIREE/nx_iree/include/iree/base/status_cc.h:170-187 | OK ignores the message; an error allocates a payload unless the message is empty or there is no storage |
| `StatusObjects.Status.MoveAssign` | embedded_devices/live_nx_iree/native/swiftui/LiveNxIREE/nx_iree/include/iree/base/status_cc.h:147-154 | Frees the old payload, takes the other's word, leaves it its code; self-assignment changes nothing |
| `StatusObjects.Status.AssignCode` | embedded_devices/live_nx_iree/native/swiftui/LiveNxIREE/nx_iree/include/iree/base/status_cc.h:157-168 | Frees the old payload and becomes the bare code |
| `StatusObjects.Status.Destroy` | embedded_devices/live_nx_iree/native/swiftui/LiveNxIREE/nx_iree/include/iree/base/status_cc.h:189-193 | The destructor frees exactly the payload it holds |
| `StatusObjects.Status.IgnoreError` | embedded_devices/live_nx_iree/native/swiftui/LiveNxIREE/nx_iree/include/iree/base/status_cc.h:208-209 | Frees the payload and becomes OK |
| `StatusObjects.Status.ToVariable` | embedded_devices/live_nx_iree/native/swiftui/LiveNxIREE/nx_iree/include/iree/base/status_cc.h:211-215 | Hands over the word and keeps the code |
| `StatusObjects.Status.Release` | embedded_devices/live_nx_iree/native/swiftui/LiveNxIREE/nx_iree/include/iree/base/status_cc.h:219-221 | Hands over the word and becomes OK |
| `StatusObjects.Status.ExchangeWithCode` | embedded_devices/live_nx_iree/native/swiftui/LiveNxIREE/nx_iree/include/iree/base/status_cc.h:374-381 | `exchange` with the own code is a move: the payload goes to the returned status, nothing is freed |
| `StatusObjects.StatusOr.constructor` | embedded_devices/live_nx_iree/native/swiftui/LiveNxIREE/nx_iree/include/iree/base/status_cc.h:783-784 | A default `StatusOr` is an unknown error without payload or value |
| `StatusObjects.StatusOr.FromValue` | embedded_devices/live_nx_iree/native/swiftui/LiveNxIREE/nx_iree/include/iree/base/status_cc.h:409-410 | Holds the value, constructed once, with an OK status |
| `StatusObjects.StatusOr.FromStatus` | embedded_devices/live_nx_iree/native/swiftui/LiveNxIREE/nx_iree/include/iree/base/status_cc.h:412-415 | Takes any status; the tag of the union is right afterwards exactly when that status is not OK (otherwise the program aborts) |
| `StatusObjects.StatusOr.Move` | embedded_devices/live_nx_iree/native/swiftui/LiveNxIREE/nx_iree/include/iree/base/status_cc.h:374-381 | Takes value or status; the source stays OK with a moved-from value, or keeps its code, and its tag stays right if and only if its word was well formed |
| `StatusObjects.StatusOr.AssignValue` | embedded_devices/live_nx_iree/native/swiftui/LiveNxIREE/nx_iree/include/iree/base/status_cc.h:456-464 | Destroys a held value or frees a held payload, then holds the new value; one destruction and construction, never over a live value |
| `StatusObjects.StatusOr.AssignStatus` | embedded_devices/live_nx_iree/native/swiftui/LiveNxIREE/nx_iree/include/iree/base/status_cc.h:466-470 | Destroys the held value, takes the status and frees the old payload; reports exactly the OK statuses as aborts |
| `StatusObjects.StatusOr.MoveAssign` | embedded_devices/live_nx_iree/native/swiftui/LiveNxIREE/nx_iree/include/iree/base/status_cc.h:427-435 | Whole effect of move assignment on both sides, the heap and the value counts, including self-assignment; the source keeps a right tag if and only if its word was well formed |
| `StatusObjects.StatusOr.TakeStatus` | embedded_devices/live_nx_iree/native/swiftui/LiveNxIREE/nx_iree/include/iree/base/status_cc.h:845-852 | Moves an error status out and leaves the code, with a right tag if and only if the word was well formed; an OK object yields OK and keeps its value |
| `StatusObjects.StatusOr.Destroy` | embedded_devices/live_nx_iree/native/swiftui/LiveNxIREE/nx_iree/include/iree/base/status_cc.h:437-444 | Destroys the value exactly when the status is OK and frees the payload |
| `StatusRuns.RunsKeepInvariant` | embedded_devices/live_nx_iree/native/swiftui/LiveNxIREE/nx_iree/include/iree/base/status_cc.h:110-521 | Every sequence of 22 kinds of operations keeps payload ownership, well-formed words and value lifetimes |
| `StatusRuns.RunsAreSafe` | embedded_devices/live_nx_iree/native/swiftui/LiveNxIREE/nx_iree/include/iree/base/status_cc.h:110-521 | After every run from an empty program: each payload has one owner and was freed at most once, no dangling payload, `ok()` agrees with `code() == kOk`, a value is alive in exactly the OK `StatusOr` objects, and constructions minus destructions is their number |
| `StatusRuns.PayloadsFreedExactlyOnce` | embedded_devices/live_nx_iree/native/swiftui/LiveNxIREE/nx_iree/include/iree/base/status_cc.h:189-193 | Whenever no word holds a payload any more, every payload ever allocated was freed exactly once |
| `StatusRuns.MoveKeepsValuesIff` | embedded_devices/live_nx_iree/native/swiftui/LiveNxIREE/nx_iree/include/iree/base/status_cc.h:374-381 | A move between `StatusOr` objects keeps a value alive exactly where one is OK if and only if the word it moves is well formed |
| `StatusEffects.MovesKeepCodes` | embedded_devices/live_nx_iree/native/swiftui/LiveNxIREE/nx_iree/include/iree/base/status_cc.h:132-221 | Over every operation: each object that lives on keeps its code, but for the target and the source of a release, which becomes OK; the target of a move has the word its source had, and the source has no payload then |
| `StatusEffects.StepHasEffect` | embedded_devices/live_nx_iree/native/swiftui/LiveNxIREE/nx_iree/include/iree/base/status_cc.h:110-521 | Over every operation: what the target, the source and every other object hold afterwards; exactly the payload the target held is freed, exactly the one it is given is allocated, and every other payload keeps its allocation; which value goes where and how many are constructed |
| `StatusEffects.EnabledIff` | embedded_devices/live_nx_iree/native/swiftui/LiveNxIREE/nx_iree/include/iree/base/status_cc.h:132-521 | An operation can be carried out if and only if its target exists, or does not yet where it constructs one, its source exists and the allocator can serve it |
| `StatusEffects.AbortsIff` | embedded_devices/live_nx_iree/native/swiftui/LiveNxIREE/nx_iree/include/iree/base/status_cc.h:412-415 | The program aborts if and only if an OK status is given to a `StatusOr` |
| `StatusPrograms.Execute` | embedded_devices/live_nx_iree/native/swiftui/LiveNxIREE/nx_iree/include/iree/base/status_cc.h:132-521 | Carrying out any of the 22 operations on the objects, through their own constructors and methods, is the step of the run and has the effect of the operation: the words in the objects keep their codes and move as `MovesKeepCodes` says, the objects stay distinct and the invariant holds; it aborts exactly where the step does |
| `StatusPrograms.Run` | embedded_devices/live_nx_iree/native/swiftui/LiveNxIREE/nx_iree/include/iree/base/status_cc.h:110-521 | Every run from an empty program, carried out on the objects, ends in the state the run leads to, and that state is safe: one owner per payload, at most one free, values alive exactly in OK objects |
| `RefCount.Resource.constructor` | embedded_devices/live_nx_iree/native/swiftui/LiveNxIREE/nx_iree/include/iree/hal/resource.h:67-72 | A resource starts where the protocol does, with one reference |
| `RefCount.Resource.Increment` | embedded_devices/live_nx_iree/native/swiftui/LiveNxIREE/nx_iree/include/iree/base/internal/atomics.h:158-161 | The increment takes the object along the increment action of the protocol, wrapping in 32 bits |
| `RefCount.Resource.Decrement` | embedded_devices/live_nx_iree/native/swiftui/LiveNxIREE/nx_iree/include/iree/base/internal/atomics.h:163-172 | The decrement takes the object along the decrement action, returns the previous count, and returns one exactly when the destroy is now due from this thread |
| `RefCount.Retain` | embedded_devices/live_nx_iree/native/swiftui/LiveNxIREE/nx_iree/include/iree/hal/detail.h:47-53 | By a thread that holds a reference, retain is the increment action of the protocol; it ignores null |
| `RefCount.Destroy` | embedded_devices/live_nx_iree/native/swiftui/LiveNxIREE/nx_iree/include/iree/hal/detail.h:40-46 | By a thread from which it is due, destroy is the destroy action of the protocol; it ignores null |
| `RefCount.Release` | embedded_devices/live_nx_iree/native/swiftui/LiveNxIREE/nx_iree/include/iree/hal/resource.h:82-92 | By a thread that holds a reference, release takes the object along the decrement action followed, exactly when that made the destroy due, by the destroy action |
| `RefCount.InterleavingsAreSafe` | embedded_devices/live_nx_iree/native/swiftui/LiveNxIREE/nx_iree/include/iree/hal/detail.h:39-61 | For any threads and any interleaving with at most 2^32 references: the count equals the references as an int32, and plainly below 2^31, destroy runs at most once and only when none is held, and has run once when all are gone |
| `RefCount.SafeIffNoOverflow` | embedded_devices/live_nx_iree/native/swiftui/LiveNxIREE/nx_iree/include/iree/hal/detail.h:54-61 | An interleaving is safe throughout if and only if no release in it happens with 1 + k * 2^32 references outstanding, k > 0 |
| `RefCount.ReferencesFollowHistory` | embedded_devices/live_nx_iree/native/swiftui/LiveNxIREE/nx_iree/include/iree/hal/detail.h:47-61 | Over every interleaving each thread holds the references it retained or was handed less those it released or handed on, and destroys count the calls |
| `RefCount.OverflowIsReachable` | embedded_devices/live_nx_iree/native/swiftui/LiveNxIREE/nx_iree/include/iree/hal/detail.h:54-61 | For every k > 0 such a release is reached by k * 2^32 retains: the 32-bit count does wrap |
| `RefCount.Interleave` | embedded_devices/live_nx_iree/native/swiftui/LiveNxIREE/nx_iree/include/iree/hal/detail.h:39-61 | Every interleaving, carried out action by action on one object with destroys only by threads whose decrement read one, leaves the object where the protocol ends; within the bound it is destroyed at most once, and once when all references and calls are done |
| `RefCount.NothingFollowsDestroy` | embedded_devices/live_nx_iree/native/swiftui/LiveNxIREE/nx_iree/include/iree/hal/resource.h:55-60 | Once destroyed, no thread has any enabled action on the resource |
| `Words.AndIsBitwise` | embedded_devices/live_nx_iree/native/swiftui/LiveNxIREE/nx_iree/include/iree/base/alignment.h:86 | `And` on numbers is the conjunction of their bits |
| `Words.OrIsBitwise` | embedded_devices/live_nx_iree/native/swiftui/LiveNxIREE/nx_iree/include/iree/base/alignment.h:351 | `Or` on numbers is the disjunction of their bits |
| `Words.ComplementIsBitwise` | embedded_devices/live_nx_iree/native/swiftui/LiveNxIREE/nx_iree/include/iree/base/alignment.h:86 | `Complement` flips every bit of the word |
| `Words.ShrIsBitwise` | embedded_devices/live_nx_iree/native/swiftui/LiveNxIREE/nx_iree/include/iree/base/alignment.h:354-358 | A right shift moves every bit down |
| `Words.ShlIsBitwise` | embedded_devices/live_nx_iree/native/swiftui/LiveNxIREE/nx_iree/include/iree/base/alignment.h:349-352 | A left shift moves every bit up and clears the low ones |
| `Alignment.AlignIsLeastMultiple` | embedded_devices/live_nx_iree/native/swiftui/LiveNxIREE/nx_iree/include/iree/base/alignment.h:82-87 | For every width, power-of-two alignment and word: the mask form is the least multiple not below the value if and only if that multiple fits the word, and zero otherwise |
| `Alignment.HasAlignmentIsExact` | embedded_devices/live_nx_iree/native/swiftui/LiveNxIREE/nx_iree/include/iree/base/alignment.h:94-98 | The alignment test is exact for every word, also where the inner align wraps to zero |
| `Alignment.PowerOfTwoTestIsExact` | embedded_devices/live_nx_iree/native/swiftui/LiveNxIREE/nx_iree/include/iree/base/alignment.h:89-92 | `v & (v - 1)` accepts exactly the powers of two |
| `Alignment.CeilDivIsCeiling` | embedded_devices/live_nx_iree/native/swiftui/LiveNxIREE/nx_iree/include/iree/base/alignment.h:143-149 | The wrapping expression is the exact ceiling for every dividend and nonzero divisor |
| `Alignment.CeilDivTimesIsAlign` | embedded_devices/live_nx_iree/native/swiftui/LiveNxIREE/nx_iree/include/iree/base/alignment.h:143-149 | `ceil_div(v, a) * a`, in the word, equals `align(v, a)` for every value, wrapped or not |
| `NumberTheory.GcdIsGreatest` | embedded_devices/live_nx_iree/native/swiftui/LiveNxIREE/nx_iree/include/iree/base/alignment.h:175-186 | The recursion terminates with the greatest common divisor of any two values not both zero |
| `NumberTheory.GcdCommonDivisors` | embedded_devices/live_nx_iree/native/swiftui/LiveNxIREE/nx_iree/include/iree/base/alignment.h:182-186 | The divisors of the gcd are exactly the common divisors |
| `NumberTheory.ProductOverGcd` | embedded_devices/live_nx_iree/native/swiftui/LiveNxIREE/nx_iree/include/iree/base/alignment.h:188-199 | The multiples of `a * (b / gcd)` are exactly the common multiples |
| `NumberTheory.LcmIsExactIffItFits` | embedded_devices/live_nx_iree/native/swiftui/LiveNxIREE/nx_iree/include/iree/base/alignment.h:196-199 | The computed lcm is the least common multiple if and only if that fits the word |
| `PageRanges.PageAlignRange` | embedded_devices/live_nx_iree/native/swiftui/LiveNxIREE/nx_iree/include/iree/base/alignment.h:256-271 | Start and length of the least page-aligned cover, for ranges up to the top of the address space; the length is exact unless the cover is the whole space |
| `PageRanges.LeastCoverUnique` | embedded_devices/live_nx_iree/native/swiftui/LiveNxIREE/nx_iree/include/iree/base/alignment.h:256-258 | A range has only one least page-aligned cover |
| `PageRanges.CoverDistributesOverHull` | embedded_devices/live_nx_iree/native/swiftui/LiveNxIREE/nx_iree/include/iree/base/alignment.h:236-245 | The union of the page covers of two ranges is the page cover of their hull |
| `PageRanges.UnionIsHullIff` | embedded_devices/live_nx_iree/native/swiftui/LiveNxIREE/nx_iree/include/iree/base/alignment.h:236-245 | With ends up to the top of the address space the union is the hull if and only if no end wraps or both do |
| `LittleEndian.NativeByteAt` | embedded_devices/live_nx_iree/native/swiftui/LiveNxIREE/nx_iree/include/iree/base/alignment.h:309-319 | Byte i of a memory image is the i-th byte of the value from the low end on a little-endian host and from the high end on a big-endian one |
| `LittleEndian.StoreU16` | embedded_devices/live_nx_iree/native/swiftui/LiveNxIREE/nx_iree/include/iree/base/alignment.h:354-358 | Writes the two bytes through the index map and nothing else |
| `LittleEndian.StoreU32` | embedded_devices/live_nx_iree/native/swiftui/LiveNxIREE/nx_iree/include/iree/base/alignment.h:392-398 | Writes the four bytes through the index map and nothing else |
| `LittleEndian.StoreU64` | embedded_devices/live_nx_iree/native/swiftui/LiveNxIREE/nx_iree/include/iree/base/alignment.h:443-453 | Writes the eight bytes through the index map and nothing else |
| `LittleEndian.LoadU64Value` | embedded_devices/live_nx_iree/native/swiftui/LiveNxIREE/nx_iree/include/iree/base/alignment.h:425-435 | The or-ed shifts of the load are the value of the bytes, in either byte order |
| `LittleEndian.LoadU32Value` | embedded_devices/live_nx_iree/native/swiftui/LiveNxIREE/nx_iree/include/iree/base/alignment.h:378-384 | The or-ed shifts of the load are the value of the bytes, in either byte order |
| `LittleEndian.LoadU16Value` | embedded_devices/live_nx_iree/native/swiftui/LiveNxIREE/nx_iree/include/iree/base/alignment.h:349-352 | The or-ed shifts of the load are the value of the bytes, in either byte order |
| `LittleEndian.StoreThenLoad` | embedded_devices/live_nx_iree/native/swiftui/LiveNxIREE/nx_iree/include/iree/base/alignment.h:349-453 | For every buffer, offset, width and index map, a load after a store returns the value |
| `LittleEndian.WideStoreIsTwoStores` | embedded_devices/live_nx_iree/native/swiftui/LiveNxIREE/nx_iree/include/iree/base/alignment.h:392-453 | A wide store is two stores of half the width, low half first under the little-endian map and high half first under the mirrored one |
| `AllocatorStatistics.HostLocalBits` | embedded_devices/live_nx_iree/native/swiftui/LiveNxIREE/nx_iree/include/iree/hal/buffer.h:65-67 | The mask test accepts exactly the memory types that have bits 1, 2 and 6, whatever other bits they have |
| `AllocatorStatistics.Recorder.RecordAlloc` | embedded_devices/live_nx_iree/native/swiftui/LiveNxIREE/nx_iree/include/iree/hal/allocator.h:504-519 | With bits 1, 2 and 6 set the host counter and peak move and the device fields do not change; otherwise the device counter and peak move and the host fields do not change |
| `AllocatorStatistics.Recorder.RecordFree` | embedded_devices/live_nx_iree/native/swiftui/LiveNxIREE/nx_iree/include/iree/hal/allocator.h:521-530 | With bits 1, 2 and 6 set only the freed host bytes change, otherwise only the freed device bytes |
| `AllocatorStatistics.CountersAgreeWithHistory` | embedded_devices/live_nx_iree/native/swiftui/LiveNxIREE/nx_iree/include/iree/hal/allocator.h:504-530 | For every history whose frees match earlier allocations and either class: allocated minus freed is the live bytes if and only if they fit the word, and the peak is the maximum live bytes over all prefixes if and only if that fits, however often the counters wrapped |
| `TensorWire.SerializedLayout` | cmake/src/runtime.cc:112-151 | The serialization by offsets: element type in bytes 0 to 3, size in the next word, data, rank in a word, then one word per dimension, and its exact length |
| `TensorWire.ParsedLayout` | cmake/src/runtime.cc:72-96 | What the deserializer returns is what the buffer holds at those offsets |
| `TensorWire.RoundTrip` | cmake/src/runtime.cc:72-151 | Deserializing a serialization followed by any bytes recovers type, dims and data and looks at none of what follows |
| `TensorWire.ParseIffSerialized` | cmake/src/runtime.cc:72-96 | The deserializer accepts exactly the buffers that begin with a serialization, with exactly that tensor and remainder |
| `TensorWire.PrefixFree` | cmake/src/runtime.cc:112-151 | No serialization is a prefix of another tensor's, so serialization is injective |
| `Tensors.IreeTensor.FromView` | cmake/src/runtime.cc:33-54 | Takes over the view; size and dims are the view's, no host data; it stands for what the view shows if the types agree |
| `Tensors.IreeTensor.FromHost` | cmake/src/runtime.cc:56-70 | Copies the bytes into one new block and casts the dims to words; it stands for that value |
| `Tensors.IreeTensor.Deserialize` | cmake/src/runtime.cc:72-96 | The offset-by-offset constructor builds what the buffer holds at the offsets of the wire layout, in one new block, and stands for that tensor |
| `Tensors.IreeTensor.Serialize` | cmake/src/runtime.cc:112-151 | For every outcome of malloc and of the transfer: when it succeeds, the bytes it returns with their wire layout, the block it leaves as the cache, and the memory |
| `Tensors.IreeTensor.Deallocate` | cmake/src/runtime.cc:98-110 | Frees the block and releases the view it holds, and forgets both |
| `Tensors.IreeTensor.Read` | c_src/nx_iree.cc:312-347 | The first bytes from the host block, or from the device when there is a view, up to the whole device buffer; none where the transfer fails |
| `Tensors.Machine.ReadBuffer` | cmake/src/runtime.cc:481-510 | Without a view reports success and writes nothing; otherwise one transfer of the given count, or of the whole buffer for -1 |
| `TensorRuns.EverythingReleased` | cmake/src/runtime.cc:33-137 | Over every run of serialize, read, deallocate and hand-overs to `call`, with every outcome of malloc and transfers: no block is freed twice, the view is released once per hand-over made while it is held and once by the first deallocate; the destructor leaves every block freed once and nothing else touched |
| `TensorRuns.ReleasedOnceIff` | cmake/src/runtime.cc:98-110 | The view is released at most once over a run and the destructor if and only if no hand-over is made while it is held; before the destructor, one hand-over that neither another nor a deallocate follows is allowed too |
| `TensorRuns.HandOverThenDeallocate` | cmake/src/runtime.cc:403-404 | Handing a device tensor to `call` and then deallocating it releases its view twice |
| `TensorRuns.RunObserves` | cmake/src/runtime.cc:112-151 | Over every run of successful observations each result is determined by the value the tensor stands for |
| `TensorRuns.Indistinguishable` | c_src/nx_iree.cc:337-344 | Host-backed and device-backed tensors of equal value give equal results in every run of serializes and reads |
| `TensorRuns.ObservationsTransfer` | cmake/src/runtime.cc:125-137 | Exact device transfers of every run of successful serializes and reads: the reads if there is a view, plus one if some serialize found no host data; serializes after the first transfer nothing |
| `TensorRuns.SerializeKeepsValueIff` | cmake/src/runtime.cc:125-137 | A serialize leaves the tensor standing for its value if and only if host data was present, no block was obtained, the transfer succeeded, or the block held the right bytes by accident |
| `Calls.Call` | cmake/src/runtime.cc:352-479 | Applies the function to the inputs' values in order, wraps each result in a tensor of its own that stands for it, and releases the reference each input held on a view; fails, releasing nothing, exactly when the function does |
| `Calls.HandedOverCounts` | cmake/src/runtime.cc:403-404 | Releasing the argument list releases a view once for each input that holds it |
| `Calls.CallSeesValues` | cmake/src/runtime.cc:400-421 | The function is given the values the inputs stand for, whether on host or device |
| `Calls.NxIreeCall` | embedded_devices/live_nx_iree/native/swiftui/LiveNxIREE/c_src/nx_iree.cpp:104-135 | Output i is the serialization of result i of the function on the deserialized inputs, with its exact length; every output's block is freed and view released |
| `Calls.CallsCompose` | embedded_devices/live_nx_iree/native/swiftui/LiveNxIREE/c_src/nx_iree.cpp:104-135 | Feeding the outputs of one byte-level call to another equals the byte-level call of the composed function: output i is the serialization of result i of the second function on the first results of the first |
| `ElementTypes.UnpackPacked` | embedded_devices/live_nx_iree/native/swiftui/LiveNxIREE/nx_iree/include/iree/hal/buffer_view.h:54-64 | Numerical type and bit count come back from the packed element type |
| `ElementTypes.DenseIsLeast` | embedded_devices/live_nx_iree/native/swiftui/LiveNxIREE/nx_iree/include/iree/hal/buffer_view.h:105-106 | The dense byte count is the least number of bytes that holds the bits |
| `ElementTypes.NamesSayTheType` | cmake/src/runtime.cc:153-188 | The digits of a known type name are the bit count packed in its element type and its letters the numerical type |
| `ElementTypes.NamesRoundTripIff` | c_src/nx_iree.cc:276-310 | A type name survives the trip through its element type if and only if it is not one of the signed ones, which come back as names that no longer parse |
| `TypedArrays.Build` | cmake/src/emscripten_api.cc:19-81 | Rejects unknown and unsupported types; otherwise a tensor with the array's byte length and cast dims whose bytes hold the elements in order, each congruent to its element modulo the range of the kind |
| `TypedArrays.KindMatchesType` | cmake/src/emscripten_api.cc:35-66 | The number type chosen for an element type has its bit count and its class, signed, unsigned or floating point |
| `TypedArrays.KindRanges` | cmake/src/emscripten_api.cc:35-66 | The ranges of the elements of the ten kinds |
| `TypedArrays.FlatArrayReads` | cmake/src/emscripten_api.h:133-156 | The flat array has as many elements as fit the bytes, each in range and congruent to the value of the bytes at its place |
| `TypedArrays.DivisorIsDenseByteCount` | cmake/src/emscripten_api.h:133-153 | Each divisor of the flat-array switch is the dense byte count packed in the element type |
| `TypedArrays.ArrayRoundTrip` | cmake/src/emscripten_api.h:133-153 | For all ten types and every array, building a tensor and flattening it gives the array back |
| `TypedArrays.BytesRoundTripIff` | cmake/src/emscripten_api.h:133-156 | Flattening and rebuilding gives the bytes back if and only if they are a whole number of elements |
| `Devices.ListDrivers` | cmake/src/runtime.cc:212-242 | All drivers but "hip", in order; empty with the error when enumeration fails |
| `Devices.WithoutHipMembers` | cmake/src/runtime.cc:227-238 | Every other driver is kept with its multiplicity, "hip" not at all |
| `Devices.WithoutHipInOrder` | cmake/src/runtime.cc:227-238 | The listing is the drivers at the positions not called "hip", in increasing order of position |
| `Devices.ListDriverDevices` | cmake/src/runtime.cc:269-327 | Appends one device per description in order, whose URI begins with `driver://` and goes on with the path, with its id and driver; nothing when creating or querying the driver fails |
| `Devices.ListDevices` | cmake/src/runtime.cc:244-267 | Succeeds if and only if every listed driver answers, appending device i of driver k, with its URI, at the place the counts of the earlier drivers give; otherwise deletes and clears everything and returns the first failing driver's error |

## Left out

- The task executor, queues, lists, pools, pollers, semaphores, fences, loops, streams, parameter archives and string utilities: only their declarations are in the repository.
- The bodies of `iree_status_allocate`, `iree_status_free`, `iree_status_ignore`, the atomic operations, buffer transfers and module invocation are primitives of the model; an invocation is an arbitrary function of the argument values, and the outcome of an allocation or transfer is a parameter.
- Calls.Call: the early error returns of `call` are one failure outcome, in which the argument list is leaked and nothing is released; a result that is an input's own view is modelled as a view of its own.
- Calls.NxIreeCall: runs in which an allocation or a transfer for an output fails are not modelled, because the source then dereferences a null result.
- Devices.ListDriverDevices: a failing `iree_hal_create_device` is not modelled; its clean-up loop indexes the vector past its end.
- Tensors.IreeTensor.FromHost: the unchecked `malloc` is taken to succeed, as is `operator new` in the deserializing constructor, which throws otherwise; the kinds of allocation are one heap.
- Tensors.IreeTensor.Read: negative counts other than -1, which the binary allocation rejects, and counts beyond the size of a host tensor, which read past its block, are not modelled; a transfer beyond the end of a device buffer is taken to fail.
- TypedArrays.Build: JavaScript numbers are modelled after conversion, as integers of the kind's range or floating-point bit patterns; arrays of another kind than the type's are left out, because the conversion of their elements is not part of the repository and a narrowing one makes the copy read past the converted vector; the block that leaks when a type is rejected is not counted.
- The null-data branch of the flat-array conversion, `nx_iree_image_call` and the emscripten `nx_iree_call`: buffer-size plumbing without an abstract meaning of its own.
- Const copies of `StatusOr`, which need a const copy of `Status` that does not exist, and conversions between different value types, which are the same moves with a conversion in between.
- Memory orders of the atomic operations: the steps of the reference-counting protocol interleave sequentially.
- `iree_host_size_floor_div`, which on unsigned operands is plain division, and `iree_align_byte_range_to_pages`, which rounds offset and length up separately and is not a cover.
- The vector that `serialize` leaks when it fails, and result tensors beyond the requested number of outputs.
- User interface, camera code, JavaScript assets, Erlang terms, embind registration, CUDA contexts and tracing.
