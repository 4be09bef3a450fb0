# A model of the DDL library's stateful and arithmetic cores

This project models, in Dafny, the parts of the repository whose correctness rests on bit
arithmetic, on calendar arithmetic, or on how threads interleave, and proves what those parts are
for. `dafny verify dfyconfig.toml` checks all of it.

| files | what they model |
|---|---|
| `Bits`, `Numbers`, `Words`, `ByteOrder` | bit strings and the numbers they denote, two's complement, 64-bit words of a little-endian host, and what a big-endian field is, independent of any shifting |
| `Signals`, `BitFields`, `BitSerializer` | `readSignal` and `writeSignal` word by word on a byte array, proved against bit fields of the buffer; the laws of those fields; the serializer class with its checks and types |
| `LeafAccess` | the small leaf layout, its byte-wise fast path and its bit-wise slow path |
| `Calendar`, `DateTimes` | the Julian/Gregorian calendar counted day by day, the closed forms, and the `DateTime` class that computes them on fractions |
| `SharedMutex`, `LockProtocol`, `Counting` | the 32-bit flag of the reader/writer lock, and every interleaving of its critical sections |
| `Registry` | the RPC object registry, its handles, and every interleaving of its operations on top of the lock |
| `RequestHandOff` | the hand-off of accepted requests to detached threads |
| `LeafIteration` | the element iterator and the recursive walk over all leaves |
| `Splitting` | split, join, replace, and the CSV reader's own splitter |

Code that changes a buffer, a flag, a table or fields in place is a class or a method over an array;
its contract ties the new state to a function of the old one, and the laws are lemmas about that
function. Protocols are step systems whose steps are those same functions: `Reach(.., k, s)` says
that s is reached after k steps of any threads in any order.

## What the proofs found

Where the code and its documentation part, the model follows the code, and the exact condition
under which the code does what is documented is proved.

* A big-endian write is right, for every buffer and value, exactly when the field does not need a
  ninth byte or has all 64 bits. In any other field writing 128 to a zeroed buffer sets a bit behind
  the field and reads back without bit 7 (`BitFields.ExactIffRoundTrips`, `BitFields.ExactIffFramed`).
* The slow path of a leaf layout reads and writes the codec's own field exactly when the field is
  byte-aligned, starts below bit 2^32, and has its own byte order: a layout that is filled a second
  time keeps the big-endian flag of the first, which is wrong for a little-endian field of more than
  8 bits (`LeafAccess.SlowPathExactly`).
* `set` after `toTimestamp` gives an existing date and time back exactly when the day is not before
  the Julian origin or the time is midnight, because quotients are cut towards zero
  (`DateTimes.DateTimeRoundTrip`, `DateTimes.NoonBeforeOrigin`). The converse trip is right for every timestamp.
* The lock can strand a sleeper exactly when there are at least two more threads than reader slots:
  two readers leave, the woken one re-fills the slots without a further notification
  (`LockProtocol.WakeUpsIffFewThreads`). With 2^31 - 1 slots this is out of reach in practice.
* A copy of a handle goes through exactly when no unregistration is draining the object and a reader
  slot is free (`RegistryProtocol.CopyGoesThroughIff`). If an unregistration is draining it, the two
  threads wait for each other in every run from there on (`RegistryProtocol.CopyWaitsForever`), and
  two threads suffice to get there (`RegistryProtocol.CopyMeetsDrainReached`).
* The leaf walk calls back for exactly the documented leaves if and only if no struct it can reach
  starts with an array of size zero: `begin` does not skip such an array, `next` does
  (`LeafIteration.VisitsTheLeavesIff`, `LeafIteration.EmptyFirstIsVisited`). The specification lets an
  array take its size only from a preceding element (doc/extern/ddl/ddl_specification.md:552), but the
  check of a description only asks that the element exist
  (src/ddl/dd/dd_validationinfomodel.cpp:1211-1227), so nothing there keeps a first element from
  taking its size, and the size zero, from one behind it.
* When the wait for detached threads returns, every request has been processed
  (`RequestHandOff.AllProcessedOnReturn`), but a thread may still have its last `notify_all` ahead of
  it, on an object whose destructor waits for nothing else: this can happen if and only if any request
  was accepted (`RequestHandOff.ReturnsEarlyIff`).

## Model

| member | source | states |
|---|---|---|
| Words.LoadBytes | include/ddl/codec/bitserializer.h:434-448 | a copy of up to 8 bytes makes word bit i the buffer's bit 8*from+i |
| Words.StoreBytes | include/ddl/codec/bitserializer.h:365-371 | the copied bytes become the word's low bits; every other bit of the buffer stays |
| Words.BufferValueIsBits | include/ddl/codec/bitserializer.h:80-82 | a buffer is one little-endian number, and its binary digits are the buffer's bits |
| Words.BufferBitsInjective | include/ddl/codec/bitserializer.h:80-82 | buffers of one length with the same bits are the same bytes, so what is said of a buffer's bits is said of all of it |
| ByteOrder.FromToBigEndian | src/ddl/codec/bitserializer.cpp:48-85 | reading a big-endian field's bits undoes placing them, for every length |
| ByteOrder.ToFromBigEndian | src/ddl/codec/bitserializer.cpp:48-85 | placing undoes reading, for every length |
| ByteOrder.FromBigEndianAt | include/ddl/codec/bitserializer.h:154-181 | closed form of where each value bit of a big-endian field lies, partial leading byte included |
| ByteOrder.ToBigEndianAt | include/ddl/codec/bitserializer.h:333-342 | closed form of which value bit each buffer bit of a big-endian field holds |
| Signals.CutLeadingBits | include/ddl/codec/bitserializer.h:385-395 | keeps the low bits and clears the others, also at the full width where nothing is shifted |
| Signals.SwapAligned | src/ddl/codec/bitserializer.cpp:56-75 | aligning a short signal at the top of a 32- or 64-bit register and swapping the register swaps exactly the signal's own bytes |
| Signals.ConvertSignalEndianess | src/ddl/codec/bitserializer.cpp:48-85 | on a little-endian host a big-endian signal of any length has its own bytes reversed, a little-endian one stays |
| Signals.CopyBytesFromBuffer | include/ddl/codec/bitserializer.h:415-451 | the two words hold the buffer's bits from the field's first byte on; no byte outside the buffer is read |
| Signals.TrimAndShift | include/ddl/codec/bitserializer.h:112-152 | from words copied out of a buffer it makes exactly the field's bits in buffer order, zeros above, whether or not there is a ninth byte |
| Signals.JoinedField | include/ddl/codec/bitserializer.h:124-152 | trimming, aligning and joining the ninth byte gives the field's bits in buffer order and zeros above |
| Signals.SwapReadSignal | include/ddl/codec/bitserializer.h:154-181 | closing the partial byte's gap and swapping turns buffer order into value order |
| Signals.ReadSignal | include/ddl/codec/bitserializer.h:89-182 | the result is the field's value bits in the requested byte order, zero-extended to 64 bits |
| Signals.EraseField | include/ddl/codec/bitserializer.h:303-321 | the mask clears the field's bits and no others, also when the field reaches the word's end |
| Signals.PackSignal | include/ddl/codec/bitserializer.h:323-342 | the signal is the value's low bits in buffer order above a gap that the returned shift makes up for |
| Signals.FillNinthByte | include/ddl/codec/bitserializer.h:344-353 | the ninth byte gets the signal's top bits below its kept bits |
| Signals.MergeSignal | include/ddl/codec/bitserializer.h:355-363 | the first eight bytes become what Stored says, whichever way the shift goes |
| Signals.MergeNinthByte | include/ddl/codec/bitserializer.h:344-353 | the ninth byte becomes what Stored says |
| Signals.WriteSignal | include/ddl/codec/bitserializer.h:290-374 | the whole buffer afterwards, bit by bit, for every field and both byte orders, inexact ones included |
| BitFields.PutIsOverwrite | include/ddl/codec/bitserializer.h:290-374 | a write to an exact field replaces the field's bits by the encoded value and nothing else |
| BitFields.RoundTrip | include/ddl/codec/bitserializer.h:627-686 | reading back an exact field gives the value written; every bit outside the field is unchanged, ninth byte included |
| BitFields.ExactIffRoundTrips | include/ddl/codec/bitserializer.h:334-353 | every write to a field reads back in every buffer if and only if the field is little-endian, fits eight bytes, or has all 64 bits |
| BitFields.ExactIffFramed | include/ddl/codec/bitserializer.h:334-353 | every write leaves all other bits alone if and only if the same condition holds |
| BitFields.InexactSpills | include/ddl/codec/bitserializer.h:348 | in any other field writing 128 to zeros sets a bit behind the field |
| BitFields.InexactLoses | include/ddl/codec/bitserializer.h:348 | and it reads back without its bit 7 |
| BitFields.DisjointUnaffected | include/ddl/codec/bitserializer.h:643-686 | a write is invisible to reads of a disjoint field |
| BitFields.WritesCommute | include/ddl/codec/bitserializer.h:674-686 | writes to disjoint fields, of any byte orders, commute |
| BitFields.IndependentVariables | include/ddl/codec/bitserializer.h:643-686 | after any run of writes to a layout of disjoint fields each field reads as the last value written to it, or as its initial value |
| BitFields.RunFrame | include/ddl/codec/bitserializer.h:643-686 | bits outside all fields survive any run of writes |
| BitFields.GetAsNumber | include/ddl/codec/bitserializer.h:643-655 | a little-endian read of the buffer seen as number B is (B / 2^start) mod 2^len |
| BitFields.PutAsNumber | include/ddl/codec/bitserializer.h:674-686 | a little-endian write changes B by 2^start times the change of the field's value |
| BitFields.WholeBytesAreNetworkOrder | include/ddl/codec/bitserializer.h:643-686 | a big-endian field of whole bytes is its bytes read most significant first |
| BitFields.BigEndianAsNumber | include/ddl/codec/bitserializer.h:643-686 | a big-endian field of any length is its first, partial byte weighted above its other bytes in that order |
| Numbers.SignExtension | include/ddl/codec/bitserializer.h:524-526 | replicating the sign bit keeps the two's complement number |
| Numbers.SignedRoundTrip | include/ddl/codec/bitserializer.h:515-548 | a signed field gives back x exactly when -2^(len-1) <= x < 2^(len-1), and otherwise a number congruent to it modulo 2^len |
| Numbers.NumberRange | include/ddl/codec/bitserializer.h:515-528 | an unsigned number of len bits lies in [0, 2^len), a signed one in [-2^(len-1), 2^(len-1)), and it is the bits' unsigned value or that less 2^len |
| Numbers.ImagePrefix | include/ddl/codec/bitserializer.h:324-328 | cutting a wider image of x to a field gives x's image of the field's width |
| BitSerializers.BitSerializer.CheckForInvalidArguments | include/ddl/codec/bitserializer.h:708-732 | success exactly for a buffer, a length from 1 to the variable's width, and a field inside the buffer, with the wrapping sum of the source; the pointer error exactly without a buffer |
| BitSerializers.BitSerializer.Read | include/ddl/codec/bitserializer.h:643-655 | the field's bits as a number of the variable's signedness, within the range of the field's length and held by the type; on an error the variable stays |
| BitSerializers.BitSerializer.Write | include/ddl/codec/bitserializer.h:674-686 | the buffer is Put of the value's low bits, whatever bytes lie behind the value in memory; on an error nothing changes |
| BitSerializers.Convert | include/ddl/codec/bitserializer.h:474-528 | the low bytes of the signal, sign bit replicated for a signed type only, are the field's number, in the range of its length |
| BitSerializers.TypedRoundTrip | include/ddl/codec/bitserializer.h:474-548 | what a typed read gives back after x was written: unsigned x mod 2^len; signed x itself exactly when -2^(len-1) <= x < 2^(len-1), and else a number congruent to it |
| LeafAccess.ConvertToLeafLayout | include/ddl/codec/leaf_value_access.h:170-313 | succeeds exactly for a leaf whose type size in the representation is that of its element type, and of at most 255 bits; the layout filled in is ConvertedLayout, kept flags included |
| LeafAccess.ReadBytes | include/ddl/codec/leaf_value_access.h:495-503 | the number in the element's bytes, one its type holds, or the exception when they do not fit |
| LeafAccess.WriteBytes | include/ddl/codec/leaf_value_access.h:518-535 | overwrites exactly the element's bytes, or throws and changes nothing |
| LeafAccess.ReadBits | include/ddl/codec/leaf_value_access.h:551-564 | the number in the bit field, one its type holds, or the exception |
| LeafAccess.WriteBits | include/ddl/codec/leaf_value_access.h:580-599 | Put of the value in the bit field, or the exception and no change |
| LeafAccess.GetValue | include/ddl/codec/leaf_value_access.h:870-881 | dispatches by the serialized flag; the result is ValueAt of the buffer, a number the type holds |
| LeafAccess.SetValue | include/ddl/codec/leaf_value_access.h:901-913 | the buffer afterwards is BitsAfterSet; it throws exactly when reading would |
| LeafAccess.BytesRefine | include/ddl/codec/leaf_value_access.h:495-535 | the byte form reads and writes exactly the field of the leaf's bytes, in host order |
| LeafAccess.DeserializedExactly | include/ddl/codec/leaf_value_access.h:177-185 | in the deserialized representation getting and setting are those of the element at its own offset, in every buffer, if and only if it has whole bytes, is byte-aligned, and starts below byte 2^32 |
| LeafAccess.FastPathRefines | include/ddl/codec/leaf_value_access.h:187-207 | for a leaf downgraded to the byte form, getting and setting give the value and the buffer of the bit form at the codec's own offset |
| LeafAccess.FastPathExactly | include/ddl/codec/leaf_value_access.h:192-207 | whatever the layout held before, the byte form reads and writes the codec's field in every buffer if and only if the field starts below byte 2^32 |
| LeafAccess.SlowPathPosition | include/ddl/codec/leaf_value_access.h:670 | the position the slow path computes is the codec's exactly when byte-aligned and below 2^32 bits, and otherwise at least eight bits off |
| LeafAccess.SlowPathRefines | include/ddl/codec/leaf_value_access.h:668-680 | under the condition of the next row, getting and setting are those of the codec's field in every buffer |
| LeafAccess.SlowPathExactly | include/ddl/codec/leaf_value_access.h:187-193 | for a leaf layout filled once or again: getting through it reads the codec's field in every buffer, and setting writes it for every value, if and only if the field is byte-aligned, starts below bit 2^32, and is big-endian, of at most 8 bits, or has no big-endian flag left over (or does not fit its type, which both refuse) |
| LeafAccess.WrongOrderShows | include/ddl/codec/leaf_value_access.h:187-190 | a longer little-endian field taken as big-endian is read and written wrongly in some buffer |
| LeafAccess.LeafIsCodecField | include/ddl/codec/leaf_value_access.h:106-116 | under that condition an element is read and written as the codec describes it, on either path |
| Calendar.Step | src/datetime/datetime.cpp:681-690 | the closed form numbers the next calendar day one higher, across month ends, leap days, centuries, 400-year cycles and the 1582 gap |
| Calendar.CountedNumber | src/datetime/datetime.cpp:681-690 | the closed form of the n-th counted day is n |
| Calendar.CountingAgrees | src/datetime/datetime.cpp:681-750 | counting days and both closed forms agree on every day from the origin on |
| Calendar.GregorianShift | src/datetime/datetime.cpp:735-738 | the century and 400-year quotients of a day number differ by the same shift as those of its year, also on a cycle's last day, where both are one too high |
| Calendar.CycleDay | src/datetime/datetime.cpp:736-737 | inside one 400-year cycle the two quotients differ by the year's century |
| Calendar.JulianInverse | src/datetime/datetime.cpp:740-750 | before the switch every integer converts to an existing date with that number |
| Calendar.DateOfDayNumber | src/datetime/datetime.cpp:681-750 | an existing date survives the trip through its day number |
| Calendar.DayNumberOfDate | src/datetime/datetime.cpp:733-750 | every integer converts to an existing date whose number it is, so never 29 February 1900 |
| Calendar.RoundTripIffExists | src/datetime/datetime.cpp:681-750 | a triple survives the trip if and only if it is an existing date |
| Calendar.EveryDateIsCounted | src/datetime/datetime.cpp:681-690 | every existing date from the origin on is reached by counting its number of days |
| DateTimes.DateTime.Set | src/datetime/datetime.cpp:651-656 | stores all fields |
| DateTimes.DateTime.ToTimestamp | src/datetime/datetime.cpp:658-693 | the fractions with floor give the exact day number in microseconds, plus the time of day, less the reference point; 0-0-0 counts no days |
| DateTimes.DateTime.SetTimestamp | src/datetime/datetime.cpp:721-759 | the object holds the date and time of the truncated quotient and remainder, for every timestamp and both references |
| DateTimes.DateFractions | src/datetime/datetime.cpp:733-750 | the fractions with floor give exactly DateOf, for every integer |
| DateTimes.MicrosecondsOfTime | src/datetime/datetime.cpp:752-756 | cutting microseconds of either sign into a time of day loses nothing |
| DateTimes.TimeOfMicroseconds | src/datetime/datetime.cpp:752-756 | an existing time of day comes back from its microseconds |
| DateTimes.DateTimeRoundTrip | src/datetime/datetime.cpp:658-759 | set after toTimestamp gives an existing date and time back if and only if the day is not before the origin or the time is midnight |
| DateTimes.NoonBeforeOrigin | src/datetime/datetime.cpp:734-752 | noon of 31 December 4714 BC, year -4713, comes back as the next day with hour -12 |
| DateTimes.TimestampRoundTrip | src/datetime/datetime.cpp:658-759 | toTimestamp after set gives every timestamp back, for both references, and the date always exists |
| DateTimes.UnsetIsOrigin | src/datetime/datetime.cpp:677-679 | the timestamp of an unset date is that of the origin: set gives back the origin and the same time |
| DateTimes.Tick | src/datetime/datetime.cpp:658-693 | the timestamp of the next microsecond, counted on the clock and in the calendar, is one higher, across midnights, month ends and the 1582 gap |
| DateTimes.JulianOrigin | src/datetime/datetime.cpp:670-671 | with the Julian reference midnight of 1 January 4713 BC is 0 |
| DateTimes.UnixOrigin | src/datetime/datetime.cpp:39-42 | the constant is midnight of 1 January 1970 |
| SharedMutexes.FlagsAreLocks | src/concurrency/shared_mutex.cpp:20-21 | the flags are exactly the pairs of a writer bit and at most 2^31 - 1 readers, each by one flag |
| SharedMutexes.SharedMutex.Lock | src/concurrency/shared_mutex.cpp:41-57 | on the 32-bit flag: when the writer bit is set waits on cond1 and changes nothing, else sets it and, by the reader count, holds the lock or waits on cond2 |
| SharedMutexes.SharedMutex.Drain | src/concurrency/shared_mutex.cpp:53-56 | the draining writer holds exactly when no reader is left |
| SharedMutexes.SharedMutex.TryLock | src/concurrency/shared_mutex.cpp:59-69 | takes the lock exactly when the flag is 0, and else changes nothing |
| SharedMutexes.SharedMutex.Unlock | src/concurrency/shared_mutex.cpp:71-79 | frees the lock and wakes all of cond1 |
| SharedMutexes.SharedMutex.LockShared | src/concurrency/shared_mutex.cpp:81-95 | one more reader exactly when the writer bit is clear and a slot is free, else waits on cond1 with the flag unchanged |
| SharedMutexes.SharedMutex.TryLockShared | src/concurrency/shared_mutex.cpp:97-113 | the same, refused instead of waiting |
| SharedMutexes.SharedMutex.UnlockShared | src/concurrency/shared_mutex.cpp:115-138 | one reader less, writer bit kept, and exactly which sleepers are notified; nothing at zero |
| LockProtocol.StepSafe | src/concurrency/shared_mutex.cpp:41-138 | every critical section of every thread keeps the accounting: writer bit set iff exactly one thread drains or holds exclusively, low bits equal to the shared holders, no shared holder beside an exclusive one |
| LockProtocol.AlwaysSafe | src/concurrency/shared_mutex.cpp:41-138 | the accounting holds in every reachable state of any number of threads |
| LockProtocol.MutualExclusion | src/concurrency/shared_mutex.cpp:41-138 | an exclusive holder is alone; at most one thread writes; readers never exceed the slots |
| LockProtocol.LockEndsHolding | src/concurrency/shared_mutex.cpp:41-57 | a thread inside lock leaves it only holding the lock exclusively, and never gives the writer bit back before |
| LockProtocol.LockSharedEndsHolding | src/concurrency/shared_mutex.cpp:81-95 | a thread inside lock_shared leaves it only holding the lock shared |
| LockProtocol.OwnersDecide | src/concurrency/shared_mutex.cpp:71-138 | what is held stays held until its owner releases it, and other threads' steps do no more than wake a sleeper |
| LockProtocol.WriterGetsIn | src/concurrency/shared_mutex.cpp:41-69 | in every reachable state try_lock takes the lock exactly when nobody writes or shares, lock takes the writer bit exactly when nobody writes, and the drain ends exactly when nobody shares |
| LockProtocol.ReaderGetsIn | src/concurrency/shared_mutex.cpp:81-113 | lock_shared and try_lock_shared get in exactly when nobody writes and fewer threads share than there are slots |
| LockProtocol.StepJustified | src/concurrency/shared_mutex.cpp:115-138 | with at most one more thread than slots a sleep on cond1 keeps a reason through every step |
| LockProtocol.NoLostWakeUp | src/concurrency/shared_mutex.cpp:45-138 | then no reachable state has sleepers but neither a holder nor an awake thread |
| LockProtocol.LostWakeUp | src/concurrency/shared_mutex.cpp:131-136 | with two more threads than slots such a state is reached |
| LockProtocol.WakeUpsIffFewThreads | src/concurrency/shared_mutex.cpp:45-138 | no wake-up is lost if and only if there are at most capacity + 1 threads |
| LockProtocol.DrainStep | src/concurrency/shared_mutex.cpp:50-56 | while a thread has the writer bit no new shared holder appears, each unlock_shared lowers the count by one, and only the owner's unlock ends it |
| LockProtocol.DrainRun | src/concurrency/shared_mutex.cpp:50-130 | over a whole such run the readers left plus the departures equal the readers at its start |
| Registries.Registry.Register | src/pkg_rpc/rpc_object_registry.cpp:19-34 | adds exactly the entry, or reports that the name is taken and changes nothing |
| Registries.Registry.Find | src/pkg_rpc/rpc_object_registry.cpp:60-65 | finds exactly the registered names and their objects |
| Registries.Registry.Erase | src/pkg_rpc/rpc_object_registry.cpp:51 | removes the one entry and no other |
| RegistryProtocol.Step | src/pkg_rpc/rpc_object_registry.cpp:19-104 | every step of register, unregister, get, copy, assign and destroy keeps the invariant of table, locks, handles and phases |
| RegistryProtocol.AlwaysInv | src/pkg_rpc/rpc_object_registry.cpp:19-104 | the invariant holds in every reachable state of any number of threads |
| RegistryProtocol.NoHandleDangles | src/pkg_rpc/rpc_object_registry.cpp:36-104 | every live handle refers to a registered object, and the reader count of that object's lock is the number of its handles |
| RegistryProtocol.LocksExist | src/pkg_rpc/rpc_object_registry.cpp:36-104 | no step uses the mutex of an object that is gone |
| RegistryProtocol.OnlyErasingErases | src/pkg_rpc/rpc_object_registry.cpp:51 | an entry goes or changes only at the end of its own unregistration |
| RegistryProtocol.ErasedUnused | src/pkg_rpc/rpc_object_registry.cpp:45-51 | when it goes no handle to its object is left |
| RegistryProtocol.GetMeetsNoWriter | src/pkg_rpc/rpc_object_registry.cpp:56-67 | when get takes the object's shared lock nobody writes or drains on it, and no unregistration is inside |
| RegistryProtocol.CallStarts | src/pkg_rpc/rpc_object_registry.cpp:19-67 | register, unregister and get start for the name they are called with |
| RegistryProtocol.WriterLetIn | src/pkg_rpc/rpc_object_registry.cpp:23-38 | the registry's lock lets register and unregister in exactly when no thread writes or reads |
| RegistryProtocol.ReaderLetIn | src/pkg_rpc/rpc_object_registry.cpp:60 | and get exactly when no thread writes and a reader slot is free |
| RegistryProtocol.RegisterAnswers | src/pkg_rpc/rpc_object_registry.cpp:19-34 | register(name) comes back with the name registered: as it was, or for a new object with a free lock; nothing else changes |
| RegistryProtocol.GetAnswers | src/pkg_rpc/rpc_object_registry.cpp:56-67 | get(name) is given no handle exactly when the name is not registered then, and otherwise a new handle to the object registered under that name |
| RegistryProtocol.GetWaitsForSlot | src/pkg_rpc/rpc_object_registry.cpp:98-104 | once the object is found get waits exactly while all its reader slots are taken |
| RegistryProtocol.UnregisterLooksUp | src/pkg_rpc/rpc_object_registry.cpp:36-43 | unregister(name) comes back from its look-up only when the name is not registered, changing nothing, and else goes on to that name's object |
| RegistryProtocol.ObjectLetsIn | src/pkg_rpc/rpc_object_registry.cpp:45-49 | it gets the object's lock exactly when no handle to the object is left |
| RegistryProtocol.UnregisterRemoves | src/pkg_rpc/rpc_object_registry.cpp:45-53 | it stays at that object and comes back having removed exactly its entry and its lock |
| RegistryProtocol.DestroyDrops | src/pkg_rpc/rpc_object_registry.cpp:69-91 | destroying or assigning to a handle removes it and takes one reader off its object's lock, and changes nothing else |
| RegistryProtocol.CopyStarts | src/pkg_rpc/rpc_object_registry.cpp:76-82 | a copy starts from its source handle and changes nothing yet |
| RegistryProtocol.OwnSteps | src/pkg_rpc/rpc_object_registry.cpp:19-104 | a thread is moved by its own steps only |
| RegistryProtocol.CopyGoesThroughIff | src/pkg_rpc/rpc_object_registry.cpp:76-96 | in every reachable state a copy gets its lock, and then a handle to the object of the old one, if and only if no unregistration is draining that object and a reader slot is free |
| RegistryProtocol.CopyWaits | src/pkg_rpc/rpc_object_registry.cpp:76-96 | a thread copying a handle to an object being drained, and the drainer, both stay where they are, whatever step is taken |
| RegistryProtocol.CopyWaitsForever | src/pkg_rpc/rpc_object_registry.cpp:45-96 | so neither moves again in any run of any threads from there on |
| RegistryProtocol.CopyMeetsDrainReached | src/pkg_rpc/rpc_object_registry.cpp:45-82 | such a meeting is reachable with two threads |
| RequestHandOff.AcceptFunc.Push | src/pkg_rpc/threaded_http_server.cpp:34-38 | appends the request |
| RequestHandOff.AcceptFunc.Pop | src/pkg_rpc/threaded_http_server.cpp:39-45 | takes the front request; needs one |
| RequestHandOff.AcceptFunc.CountIn | src/pkg_rpc/threaded_http_server.cpp:49-52 | one more outstanding |
| RequestHandOff.AcceptFunc.CountOut | src/pkg_rpc/threaded_http_server.cpp:62-66 | one less, never below zero |
| RequestHandOff.Step | src/pkg_rpc/threaded_http_server.cpp:46-74 | every step of the accept thread, of every worker and of the waiter keeps the conservation invariant |
| RequestHandOff.AlwaysInv | src/pkg_rpc/threaded_http_server.cpp:46-74 | the invariant holds in every reachable state |
| RequestHandOff.PopAndCountSafe | src/pkg_rpc/threaded_http_server.cpp:58-66 | Pop never meets an empty queue and gets the oldest request; the counter never goes below zero |
| RequestHandOff.NeverTwice | src/pkg_rpc/threaded_http_server.cpp:58-68 | no request is processed twice or without having been accepted |
| RequestHandOff.AllProcessedOnReturn | src/pkg_rpc/threaded_http_server.cpp:70-74 | after the accept thread is joined a return from the wait means an empty queue and every accepted request processed exactly once |
| RequestHandOff.WaitIsWoken | src/pkg_rpc/threaded_http_server.cpp:62-74 | while the wait sleeps some worker has still to notify it, and if all have counted out the counter is zero |
| RequestHandOff.WaitReturns | src/pkg_rpc/threaded_http_server.cpp:58-74 | for any number of requests above zero the wait can return with every worker's notify_all still to come |
| RequestHandOff.ReturnsEarlyIff | src/pkg_rpc/threaded_http_server.cpp:67-74 | a return from the wait with n requests accepted can leave a detached thread with the object in hand if and only if n > 0 |
| LeafIteration.ElementIterator.Begin | include/ddl/codec/codec_iterator.h:365-378 | begin points at the first child whatever its array size, throws exactly when that does not resolve, and is the end without children |
| LeafIteration.ElementIterator.Next | include/ddl/codec/codec_iterator.h:786-808 | goes to the next sibling of non-zero size or exactly to the end, past zero-sized ones only; throws exactly at one that does not resolve |
| LeafIteration.VisitElement | include/ddl/codec/codec_iterator.h:1455-1478 | calls back for one element's leaves, array position by array position, and ends as WalkAt says |
| LeafIteration.ForEachLeafElement | include/ddl/codec/codec_iterator.h:1449-1481 | terminates, with the calls and the end that WalkFrom says; without an exception these are all of Visited, in order |
| LeafIteration.LeavesAreTheLeafPaths | include/ddl/codec/codec_iterator.h:1415-1447 | the documented enumeration contains exactly the index paths whose every position lies below the array size of its element and that end at an element without children |
| LeafIteration.VisitedAreTheCalledPaths | include/ddl/codec/codec_iterator.h:1449-1481 | the walk's enumeration contains exactly these, and those that pass position 0 of a first element of size 0 |
| LeafIteration.WalkThrowsIff | include/ddl/codec/codec_iterator.h:786-808 | the walk ends by an exception if and only if its way leads to an element of size 0 without a static position |
| LeafIteration.WalkStops | include/ddl/codec/codec_iterator.h:786-808 | it ends at the first such element, having called back for exactly the leaves before it |
| LeafIteration.WalkIsOrdered | include/ddl/codec/codec_iterator.h:1449-1481 | every walk goes in strictly increasing index order, so no leaf comes twice |
| LeafIteration.VisitsTheLeavesIff | include/ddl/codec/codec_iterator.h:365-378 | the walk calls back for the documented leaves if and only if no reachable struct starts with an array of size zero |
| LeafIteration.EmptyFirstIsVisited | include/ddl/codec/codec_iterator.h:365-378 | a struct of an empty array and a plain element: two calls where one leaf is documented |
| Splitting.Find | src/strings/strings.cpp:348 | the first occurrence at or after a position, or none |
| Splitting.FindFirstOf | src/strings/strings.cpp:316 | the first separator at or after a position, or none |
| Splitting.SplitToken | src/strings/strings.cpp:308-329 | the text between separators, piece by piece, empty ones kept or dropped |
| Splitting.Split | src/strings/strings.cpp:336-366 | the pieces between occurrences taken from the left without overlap; nothing for an empty separator |
| Splitting.Replace | src/strings/strings.cpp:403-423 | terminates, also when the replacement contains the subject, with every occurrence replaced once; an empty subject changes nothing |
| Splitting.Join | src/strings/strings.cpp:433-444 | the pieces with the delimiter between them |
| Splitting.ReplaceIsSplitAndJoin | src/strings/strings.cpp:336-444 | replacing a by b is splitting at a, empty pieces kept, and joining with b |
| Splitting.JoinSplit | src/strings/strings.cpp:336-444 | splitting at a, empty pieces kept, and joining with a gives the string back |
| Splitting.JoinInParts | src/strings/strings.cpp:433-444 | joining two lists of pieces is joining each and putting the delimiter between |
| Splitting.EmptyPiecesDropped | src/strings/strings.cpp:321-323 | without keep_empty each empty piece is dropped, and every other stays in its place |
| Splitting.PiecesShape | src/strings/strings.cpp:336-366 | no piece holds an occurrence of the separator |
| Splitting.PiecesLeftmost | src/strings/strings.cpp:348-362 | each piece but the last ends at the first occurrence of the separator from its start on |
| Splitting.FieldsShape | src/strings/strings.cpp:308-329 | no field holds a separator, and between them lie separators only, one fewer than fields |
| Splitting.WeaveFields | src/strings/strings.cpp:308-329 | fields and the separators between them, interleaved, give the string back |
| Splitting.SplitIntoSubstring | src/csv_reader/csv_reader.cpp:18-43 | appends to the given vector the fields between split points, empty ones included |
| Splitting.SplittersAgree | src/csv_reader/csv_reader.cpp:18-43 | from an empty vector the CSV splitter, and splitToken with empty pieces, both return the fields of the string, for every string and set of separators |

## Left out

- Big-endian hosts: the other branch of `readSignal`, and what `writeSignal` does there, which the source itself leaves open.
- Floating-point fields: full-width copies of bits, the same as an unsigned field of that width.
- Rounding in `DateTime`: the fractions are exact reals here. In the source a day number beyond 2^24 + 1721119 no longer fits a float, and `int` and 64-bit sums may overflow for years and timestamps far outside history.
- Buffers of 2^61 - 8 bytes or more, whose bit positions plus a field length wrap around `size_t`.
- Signals.ReadSignal: positions and lengths that the argument check rejects are not modelled below it; `BitSerializers.BitSerializer.Read` and `Write` model the check itself.
- The bytes behind a value narrower than 64 bits that `writeSignal` copies along: arbitrary bits, given as a parameter.
- Type dispatch in the leaf access: one integer type with a size and a signedness; conversions between element and target types, `bool` and the two float types are not told apart.
- The element layout is what the codec reports; how offsets and sizes are computed from a data definition is not part of this model.
- How `resolve` finds an element by its index path: in the walk each element carries its array size, its children and whether its position is static; an array's elements all have the same children, as the codec enforces. Of an index path the iterator keeps the way to its struct and the last index.
- Move operations and self-assignment of handles: the defaulted move duplicates raw pointers without taking the lock.
- Handles that refer to nothing: creating, copying and destroying them touches no lock.
- Condition variables in the registry model: a thread that waits for a lock repeats its test instead; sleeping and waking are modelled in `LockProtocol`.
- The lock's mutex, condition variables and thread scheduling: critical sections are atomic steps, in any order, with spurious wake-ups. Fairness is not modelled, so nothing is said about every call returning.
- LockProtocol.WakeUpsIffFewThreads: for at least two reader slots; with a single slot every departure notifies, and the source has 2^31 - 1.
- Threads that release a lock they do not hold: the lock's contract excludes them.
- The wrap-around of the request counter at 2^31 outstanding requests, failing thread creation, and exceptions from `process_request`, which is one step that ends.
- `forEachElement`, the walk without array elements, and access to elements by name: they follow the same iterator.
- `Splitting.Replace` returns the string the source changes in place; `trim` and number conversion of strings are not modelled.
- `Path`, `Timer`, `Variant`, `MemoryBuffer`, date formatting and parsing, regular expressions, URLs, XML, JSON, processes, file system, logging and sockets: foreign calls, or code whose intended behaviour is not stated.
