# ICS-OS, modelled and verified

A Dafny model of the parts of ICS-OS where arithmetic, state or a protocol carries the
behaviour, with proofs about every input or every run. One module per component:

- `Words`, `Bytes`: machine words, bit operations, little-endian fields.
- `Division`, `Shifts`: the 64-bit division and shifts of the compiler runtime.
- `Heap`: `malloc`, `realloc` and `free` of the SDK.
- `Stdio`: the write cache between streams and kernel files.
- `Numbers`, `Format`, `Printed`: integers as text, the printf scanner and what its directives print,
  `vsnprintf` and console printing.
- `Argv`: an argument vector on its way from `posix_spawn` to `main`.
- `Sorting`: `qsort` and `bsearch` on bytes.
- `Calendar`: civil dates, `localtime`, `mktime`.
- `VaList`: variadic arguments after the System V AMD64 ABI.
- `Uring`: the submission and completion rings, program side and kernel side.
- `Kexec`, `Multiboot`: staging a kernel, the hand-off block, and the tag walk at boot.
- `RpcDemux`: the reply demultiplexer of the serial bridge.
- `Console`: the line console of the bridge display.

Code that changes state is a class or a method over arrays, proved against functions of the
old state; the theorems are lemmas about those functions. `dafny verify dfyconfig.toml`
checks everything.

Where the code does not do what its comments or its callers expect, the model follows the code
and states exactly when it does:

- A left shift goes wrong when sign-extending the low word sets bits of the high word
  (`Shifts.ShlDi3`).
- A failed slab refill breaks the heap if there was a slab before (`Heap.MallocKeepsIff`).
- `fwrite` returns bytes instead of items for a raw write without a descriptor
  (`Stdio.ReturnsItemsIff`), and `fseek` reports a refused seek as success (`Stdio.Cache.FSeek`).
- An announced negative payload length sends the serial reader backwards
  (`RpcDemux.TurnAdvancesIff`), and -14 makes it loop for ever (`RpcDemux.RewindsForever`).
- `posix_join_argv` leaves its line without a NUL on an empty argument after the first, or when the
  line is two short of the buffer (`Argv.UnterminatedIff`).
- A floating-point argument is given 8 bytes of the overflow area whatever its size: one of 16
  bytes, such as two doubles in a structure, overlaps the argument behind it (`VaList.ClearIff`).
  Arguments there are aligned at their end, which misplaces one aligned to 16 bytes
  (`VaList.OverflowSlotIff`).
- `strtoul` takes a prefix or a sign without digits, and wraps numbers that do not fit
  (`Numbers.EndAgreesIff`, `Numbers.UnsignedAgreesIff`).
- A format that ends in `%`, `%0`, `%-0` or `%?` is read past its end, and colour directives are
  counted as characters (`Format.DoSprintf`).
- The kexec loader accepts segments that are not sound: those with more bytes in the file than in
  memory, and those whose sums wrap (`Kexec.AcceptedSoundIff`). Where no sum wraps, the ones whose
  file part ends beyond the stage are written past it (`Kexec.StraysIff`), and the reboot jumps all
  the same (`Kexec.StrayImageJumps`).
- `kexec_load` of a file that cannot be mapped fails but leaves the earlier image armed
  (`Kexec.StaleImageJumps`).
- The framebuffer tag that `fbconsole_export_tag` builds has 16-bit type and size fields, so the
  next kernel does not find it and its tag walk goes astray (`Multiboot.DecodesWithScreen`).

Inputs from outside are parameters: what `sbrk` returns, the bytes of each read from the serial
line, the variadic arguments, mapped files and the memory around them, the result of a queued
request, and MicroPython's `int()`.

## Model

| member | source | states |
|---|---|---|
| `Division.UdivQrnnd` | ics-os/sdk/libtcc1.c:125-130 | the hardware divide step never faults when the high word is below the divisor, and gives quotient and remainder of the two-word value |
| `Division.UmulPpmm` | ics-os/sdk/libtcc1.c:119-123 | the two words together are the exact product |
| `Division.SubDdmmss` | ics-os/sdk/libtcc1.c:111-117 | two-word subtraction with borrow is subtraction modulo 2^64 |
| `Division.CountLeadingZeros` | ics-os/sdk/libtcc1.c:132-138 | shifting by the count, and by no more, brings the top bit to bit 31 |
| `Division.EstimateOvershootsByOne` | ics-os/sdk/libtcc1.c:322-347 | the digit estimated from the normalised high words is at most one too large, for every normalised divisor, the shift of 31 included |
| `Division.CorrectedDigit` | ics-os/sdk/libtcc1.c:335-347 | after at most one correction the digit and remainder satisfy the division equation of the normalised operands |
| `Division.Denormalise` | ics-os/sdk/libtcc1.c:349-354 | shifting the remainder back gives the remainder of the original operands |
| `Division.DivideByTwoWords` | ics-os/sdk/libtcc1.c:273-356 | n == q * d + r with r < d for every divisor of two words, both branches |
| `Division.DivideByOneWord` | ics-os/sdk/libtcc1.c:165-195 | the same for every divisor of one word but zero; no divide on the way faults |
| `Division.UDivMod` | ics-os/sdk/libtcc1.c:147-361 | for every numerator: a fault exactly on divisor zero, otherwise the Euclidean quotient, and the remainder exactly when asked for |
| `Division.TruncatedIff` | ics-os/sdk/libtcc1.c:365-408 | dividing magnitudes and fixing the signs is truncating division, and the only pair that is |
| `Division.DivDi3` | ics-os/sdk/libtcc1.c:365-386 | the quotient rounded toward zero, wrapped to 64 bits, for every pair of signed operands |
| `Division.ModDi3` | ics-os/sdk/libtcc1.c:388-408 | the remainder with the sign of the numerator |
| `Shifts.ShrDi3` | ics-os/sdk/libtcc1.c:443-459 | unsigned right shift by 0..63 is division by 2^b |
| `Shifts.SarDi3` | ics-os/sdk/libtcc1.c:424-440 | signed right shift by 0..63 is division by 2^b rounding down |
| `Shifts.ShlDi3` | ics-os/sdk/libtcc1.c:462-478 | the result is a * 2^b modulo 2^64 if and only if the sign bit of the low word is clear or the bits its sign extension overwrites are ones already |
| `Shifts.LeftShiftCounterexample` | ics-os/sdk/libtcc1.c:470-473 | 2^31 shifted left by one is among the operands that go wrong |
| `Heap.PayloadsAreSafe` | ics-os/sdk/tccsdk.c:984-1038 | in a sound heap no payload overlaps another block or any header |
| `Heap.PayloadsLeaveSlab` | ics-os/sdk/tccsdk.c:1010-1037 | no payload reaches into the tail of the slab still to be carved |
| `Heap.LiveXorFree` | ics-os/sdk/tccsdk.c:946-1005 | every block is live or on the free list of its own bucket, never both and never on another list |
| `Heap.FreeListsAreDisjoint` | ics-os/sdk/tccsdk.c:946-1005 | no block is on two free lists or both live and free |
| `Heap.FreeKeeps` | ics-os/sdk/tccsdk.c:946-958 | free keeps the heap sound; on null and on a block already free it does nothing |
| `Heap.FreeTakesOne` | ics-os/sdk/tccsdk.c:946-958 | free takes exactly that block out of the live set and changes no other header |
| `Heap.MallocKeepsIff` | ics-os/sdk/tccsdk.c:984-1038 | malloc keeps the heap sound if and only if it does not fail to refill a slab it already had |
| `Heap.AfterFailedRefill` | ics-os/sdk/tccsdk.c:1010-1037 | after such a failure the room test passes by wrap-around and the next small block gets its header at the address sbrk returned for failure |
| `Heap.RefillFailsInTwoCalls` | ics-os/sdk/tccsdk.c:984-1038 | a run that gets there from the empty heap: a granted 64 KiB request, then 8 KiB refused |
| `Heap.BreakKeepsPromise` | ics-os/kernel/memory/dexmem.c:1217-1243 | the break the kernel returns, 16 bytes beyond a page boundary in memory not granted before, is one the theorems cover |
| `Heap.MallocGives` | ics-os/sdk/tccsdk.c:984-1038 | a non-null result is a 16-aligned block that holds the request, newly live; no payload byte of the heap changes |
| `Heap.MallocNullIff` | ics-os/sdk/tccsdk.c:984-1038 | exactly when malloc returns null |
| `Heap.MallocIsTight` | ics-os/sdk/tccsdk.c:912-929 | the capacity is less than twice the request, or the 16-byte minimum |
| `Heap.SbrkAmountIs` | ics-os/sdk/tccsdk.c:1010-1037 | the kernel is asked for the least whole number of 4096-byte pages that holds the block, and for at least 64 KiB when the block comes from a slab |
| `Heap.MallocPlaces` | ics-os/sdk/tccsdk.c:1006-1038 | a block on no free list is the front of the slab while that is large enough, and otherwise the start of a fresh region, which becomes the slab for a block of up to 1 MiB and is the block alone for a larger one; cursor, end and granted memory afterwards |
| `Heap.FreeThenMalloc` | ics-os/sdk/tccsdk.c:946-1005 | a freed block is handed out again to the next request for its bucket, and the heap is then as it was |
| `Heap.ReallocKeepsIff` | ics-os/sdk/tccsdk.c:960-982 | realloc keeps the heap sound under the same exact condition |
| `Heap.ReallocGives` | ics-os/sdk/tccsdk.c:960-982 | null leaves the old block live and all bytes unchanged; otherwise the result holds the request and replaces the old block in the live set |
| `Heap.ReallocNullIff` | ics-os/sdk/tccsdk.c:960-982 | realloc of a block gives null if and only if the block is not live, the size is zero, or it must grow and there is no memory; a request the block holds returns it and changes nothing; size zero takes exactly it out of the live set |
| `Heap.ReallocOfNull` | ics-os/sdk/tccsdk.c:960-982 | realloc of a null pointer is malloc |
| `Heap.ReallocCopies` | ics-os/sdk/tccsdk.c:974-981 | every byte of the old capacity survives, and every byte outside the block returned |
| `Heap.Run` | ics-os/sdk/tccsdk.c:904-1038 | over any run of calls and program stores every state is sound |
| `Heap.RunElsewhere` | ics-os/sdk/tccsdk.c:904-1038 | over any run a live block the program neither frees, moves nor writes stays live with every payload byte intact |
| `Heap.StoredIsKept` | ics-os/sdk/tccsdk.c:904-1038 | what a program stores in a block it finds there again after any run of calls and stores that concern other blocks only |
| `Heap.Allocator.InitBuckets` | ics-os/sdk/tccsdk.c:924-929 | the size table is 16 * 2^b |
| `Heap.Allocator.Size2Bucket` | ics-os/sdk/tccsdk.c:912-922 | the least bucket that holds the request, or -1 |
| `Heap.Allocator.FreeBlock` | ics-os/sdk/tccsdk.c:946-958 | refines the free step and keeps the heap sound |
| `Heap.Allocator.MallocBlock` | ics-os/sdk/tccsdk.c:984-1038 | refines the malloc step; soundness afterwards under the exact condition |
| `Heap.Allocator.ReallocBlock` | ics-os/sdk/tccsdk.c:960-982 | refines the realloc step; soundness afterwards under the exact condition |
| `Stdio.WriteTwice` | ics-os/sdk/tccsdk.c:1486-1498 | two writes in a row at the current position are one write of both, over holes and overwrites alike |
| `Stdio.WriteIs` | ics-os/sdk/tccsdk.c:1486-1498 | a write replaces or extends from the position on, fills a gap with zeros, and leaves the rest |
| `Stdio.SeekIs` | ics-os/sdk/posix.c:1298-1306 | where a seek from the start, the position or the end leads, and that one before the start is refused |
| `Stdio.RawIff` | ics-os/sdk/tccsdk.c:1534-1563 | a write bypasses the cache if and only if it is to standard output or error, has 4096 bytes or more, or finds neither its own slot nor a free one |
| `Stdio.UnbufferedWrites` | ics-os/sdk/tccsdk.c:1534-1581 | what writing items and characters does to a file that is not buffered, negative counts and characters included |
| `Stdio.UnbufferedMoves` | ics-os/sdk/tccsdk.c:1595-1623 | flushing changes nothing such a file shows, a seek only its own position, and closing takes away only its own |
| `Stdio.RunIsSteps` | ics-os/sdk/tccsdk.c:1477-1635 | an uncached run is its operations one after the other |
| `Stdio.FlushedView` | ics-os/sdk/tccsdk.c:1517-1527 | flushing is invisible to the program and leaves nothing pending, whether the slot is kept or given up |
| `Stdio.ReturnsItemsIff` | ics-os/sdk/tccsdk.c:1486-1563 | fwrite returns the number of items if and only if items are bytes, the stream has a descriptor, or the write was buffered; otherwise it returns bytes |
| `Stdio.ReturnsBytes` | ics-os/sdk/tccsdk.c:1544-1547 | 2000 items of 4 bytes written raw return 8000 |
| `Stdio.Cache.SlotOf` | ics-os/sdk/tccsdk.c:1500-1515 | the slot of a stream, or a free one made its own; the program sees no difference |
| `Stdio.Cache.FlushSlot` | ics-os/sdk/tccsdk.c:1517-1527 | the kernel file becomes what the program believes the file is |
| `Stdio.Cache.FWrite` | ics-os/sdk/tccsdk.c:1534-1563 | the stream gains the whole buffer at its position and no other stream changes, for every buffer the address space admits; the result by path |
| `Stdio.Cache.FPutc` | ics-os/sdk/tccsdk.c:1565-1581 | the stream gains one byte, or the console does for standard output and error |
| `Stdio.Cache.FFlush` | ics-os/sdk/tccsdk.c:1606-1623 | the kernel file catches up; what the program sees is unchanged |
| `Stdio.Cache.FFlushAll` | ics-os/sdk/tccsdk.c:1606-1616 | every kernel file catches up |
| `Stdio.Cache.FClose` | ics-os/sdk/tccsdk.c:1595-1604 | the final content is all that was written; the slot is free; other streams are unchanged |
| `Stdio.Cache.FSeek` | ics-os/sdk/posix.c:1298-1306 | the stream moves to the position asked for whatever was pending; a seek before the start is refused and still reported as success |
| `Stdio.Cache.FTell` | ics-os/sdk/tccsdk.c:1627-1635 | the position the program believes in, pending bytes included |
| `Stdio.Cache.Run` | ics-os/sdk/tccsdk.c:1477-1635 | over any run on any number of streams the files are those an uncached implementation would have: contents, positions and open streams |
| `RpcDemux.Bridge.IngestAll` | extras/pico2w-serial-bridge/main.py:186-213 | call after call of the run-copying loop: however the stream is cut into reads, inside payloads and lines, console text, replies and decoder state are those of the whole stream, and it stops short exactly when the whole stream would |
| `RpcDemux.FlattenIs` | extras/pico2w-serial-bridge/main.py:186-213 | the reads of a stream one after the other are the stream, wherever it is cut |
| `RpcDemux.FrameDecodes` | extras/pico2w-serial-bridge/main.py:186-253 | from any state with no payload outstanding a reply frame decodes to its id and exactly its payload, whatever the bytes, and nothing of it reaches the console |
| `RpcDemux.WireFormat` | extras/pico2w-serial-bridge/main.py:215-253 | the bytes of a reply frame |
| `RpcDemux.ErrorFormat` | extras/pico2w-serial-bridge/main.py:215-253 | the bytes of an error line, with and without a message |
| `RpcDemux.ErrorDecodes` | extras/pico2w-serial-bridge/main.py:215-253 | from any state with no payload outstanding an error line gives a failed reply with its id and its message word for word, or err without one; collected payload is dropped and nothing reaches the console |
| `RpcDemux.ShownIs` | extras/pico2w-serial-bridge/main.py:215-253 | a byte of a message outside ASCII is passed on as the replacement character |
| `RpcDemux.StrayLineIgnored` | extras/pico2w-serial-bridge/main.py:215-253 | a line without the marker, a number and a known verb changes nothing |
| `RpcDemux.NoLengthIsZero` | extras/pico2w-serial-bridge/main.py:215-253 | an announcement whose length is missing or no number announces nothing |
| `RpcDemux.CarriageReturnIgnored` | extras/pico2w-serial-bridge/main.py:215-253 | a carriage return before the line feed makes no difference |
| `RpcDemux.ConsoleGetsText` | extras/pico2w-serial-bridge/main.py:186-213 | between lines every byte but the record separator goes to the console, in order |
| `RpcDemux.LongLineDropped` | extras/pico2w-serial-bridge/main.py:186-213 | a line is kept up to 256 bytes and given up with the next |
| `RpcDemux.StreamSeparates` | extras/pico2w-serial-bridge/main.py:186-253 | any stream of console text, reply frames and error lines comes apart again: the console gets all the text and only the text, and the reply left is the last one sent |
| `RpcDemux.FramePrefix` | extras/pico2w-serial-bridge/main.py:186-253 | until a frame is complete the reply is the old one or still waiting |
| `RpcDemux.WaitIsForOwnReply` | extras/pico2w-serial-bridge/main.py:368-386 | a reply returned is finished and has the caller's own id |
| `RpcDemux.WaitGetsReply` | extras/pico2w-serial-bridge/main.py:368-386 | however its frame is cut into reads the caller gets its payload |
| `RpcDemux.WaitGetsError` | extras/pico2w-serial-bridge/main.py:368-386 | however an error line is cut into reads the caller gets the failure and its message |
| `RpcDemux.TurnIsFeed` | extras/pico2w-serial-bridge/main.py:186-213 | with no negative length outstanding a turn takes a run of payload or one byte and does what those bytes do one at a time |
| `RpcDemux.TurnAdvancesIff` | extras/pico2w-serial-bridge/main.py:186-213 | a turn of the loop gets ahead if and only if no negative length is outstanding |
| `RpcDemux.RewindsOnce` | extras/pico2w-serial-bridge/main.py:186-213 | the line announcing -14 bytes sends the loop back to its own start in fifteen turns |
| `RpcDemux.RewindsForever` | extras/pico2w-serial-bridge/main.py:186-213 | so that read never ends, for any number of rounds |
| `RpcDemux.DecimalsCanBeRead` | extras/pico2w-serial-bridge/main.py:215-253 | some integer reader reads every decimal, so the assumption made about int() can be met |
| `RpcDemux.Bridge.HandleLineNow` | extras/pico2w-serial-bridge/main.py:215-253 | refines the handling of one line, malformed ones included |
| `RpcDemux.Bridge.Ingest` | extras/pico2w-serial-bridge/main.py:186-213 | copying payload in runs has the effect of one byte at a time; it stops short exactly on a byte after a negative length |
| `RpcDemux.Bridge.RpcWait` | extras/pico2w-serial-bridge/main.py:368-386 | refines the wait over any sequence of reads |
| `Uring.SlotIsFree` | ics-os/sdk/posix.c:1460-1474 | the slot handed out holds no entry that is prepared or pending |
| `Uring.NextKeeps` | ics-os/kernel/vfs/posixfd.c:1517-1563 | every step of program, kernel loop and block device keeps the ring invariant |
| `Uring.RunExtends` | ics-os/kernel/vfs/posixfd.c:1172-1205 | over any run a published entry stays as published, and consumption, completion and reaping only append |
| `Uring.OrderAndOnce` | ics-os/kernel/vfs/posixfd.c:1517-1563 | over any run the kernel executes exactly what was published, in order, each once; what is reaped is what was posted, in order, each once |
| `Uring.NothingLost` | ics-os/kernel/vfs/posixfd.c:1172-1205 | each consumed request is answered once, in flight, or counted as overflow |
| `Uring.NoneDropped` | ics-os/kernel/vfs/posixfd.c:1551-1562 | over any run in which no more consumed requests are unseen than the completion ring holds, no completion is dropped |
| `Uring.TakesInOrder` | ics-os/kernel/vfs/posixfd.c:1526-1567 | the kernel can take as many entries as are published and no more, and takes those prepared first |
| `Uring.SubmitThenTake` | ics-os/sdk/posix.c:1476-1487 | after a submit exactly as many turns of the kernel follow as entries were prepared and not taken; they consume all of them in order, and no work is left |
| `Uring.PrepareAll` | ics-os/sdk/posix.c:1460-1474 | there is an entry for each of a series of requests as long as the ring has room for them all, and they are prepared in that order |
| `Uring.SettleAll` | ics-os/kernel/vfs/posixfd.c:1172-1205 | while the completion ring has room each answer is posted with the user data of its own request |
| `Uring.SeesInOrder` | ics-os/sdk/posix.c:1501-1527 | the program sees as many completions as were posted and no more, in that order |
| `Uring.BatchGoesRound` | ics-os/sdk/posix.c:1460-1527 | a batch that both rings can hold, prepared, submitted, executed, answered and reaped on an idle ring, is consumed in order and seen with its own answers, and leaves the ring idle |
| `Uring.WrappedDistance` | ics-os/sdk/posix.c:1460-1487 | unsigned subtraction of wrapped 32-bit counters is the true distance |
| `Uring.MaskedSlot` | ics-os/sdk/posix.c:1460-1474 | masking a wrapped counter gives the slot of the unwrapped one |
| `Uring.Queue.constructor` | ics-os/kernel/vfs/posixfd.c:1107-1148 | entries are clamped and rounded up to the next power of two; the index array is the identity |
| `Uring.Queue.GetEntry` | ics-os/sdk/posix.c:1460-1474 | null exactly when the ring is full by the head loaded; otherwise a slot distinct from every pending one |
| `Uring.Queue.SubmitAll` | ics-os/sdk/posix.c:1476-1487 | publishes every prepared entry, so that the shared tail is the private one and the entries and the head are as before, and counts them from the head as loaded |
| `Uring.Queue.KernelTurn` | ics-os/kernel/vfs/posixfd.c:1526-1567 | takes nothing from an empty ring, otherwise the request at the head as prepared, and queues or answers it |
| `Uring.Queue.Settle` | ics-os/kernel/vfs/posixfd.c:1172-1205 | an answer owed is posted, or counted as overflow when the ring is full |
| `Uring.Queue.NextCqe` | ics-os/sdk/posix.c:1501-1519 | the next unseen completion exactly when there is one |
| `Uring.Queue.MarkSeen` | ics-os/sdk/posix.c:1521-1527 | retires exactly the completion shown |
| `Calendar.YearFound` | ics-os/sdk/posix.c:678-694 | the division-free year formula finds the year of the era for every one of its days |
| `Calendar.CivilThenDays` | ics-os/sdk/posix.c:678-694 | the date computed is a date of the calendar and has the day number it came from, for every integer |
| `Calendar.DaysThenCivil` | ics-os/sdk/posix.c:678-694 | every civil date is the date of its day number |
| `Calendar.DaysOfNextDay` | ics-os/sdk/posix.c:2835-2853 | the day number goes up by one from each day to the next |
| `Calendar.CivilIsGregorian` | ics-os/sdk/posix.c:678-694 | day 0 is 1970-01-01 and each day is followed by the next Gregorian day, in both directions without end |
| `Calendar.RoundTripIff` | ics-os/sdk/posix.c:698-724 | mktime(localtime(t)) == t for every 64-bit t if and only if the year fits an int |
| `Calendar.RoundTripBounds` | ics-os/sdk/posix.c:698-724 | that is, if and only if -67768100567971200 <= t < 67767976233532800 |
| `Calendar.LocalTimeInvertsMkTime` | ics-os/sdk/posix.c:2835-2853 | localtime recovers every civil date and time of day given to mktime |
| `Calendar.WeekDayAdvances` | ics-os/sdk/posix.c:698-724 | the weekday of day 0 is Thursday and advances by one a day, for negative days too |
| `Calendar.YearDayIsDistance` | ics-os/sdk/posix.c:698-724 | the day of the year is the distance from 1 January |
| `Calendar.LocalClock` | ics-os/sdk/posix.c:698-724 | weekday, hour, minute and second of every 64-bit time, as quotients and remainders of the time alone |
| `Calendar.LocalDay` | ics-os/sdk/posix.c:698-724 | for every time whose year fits an int the date is that many days from the epoch and the day of the year is counted from its 1 January |
| `Calendar.LocalTimeOfNull` | ics-os/sdk/posix.c:698-701 | without a time, the epoch, field by field |
| `VaList.ArgIsFresh` | ics-os/kernel/tccva.c:32-59 | each argument is read, over its whole size, from bytes not used so far; its bytes are used up if they fit what was set aside |
| `VaList.ClearIff` | ics-os/kernel/tccva.c:32-59 | no argument that could come next shares a byte with this one if and only if this one is not a floating-point argument of more than 8 bytes in the overflow area |
| `VaList.SpilledPairOverlaps` | ics-os/kernel/tccva.c:43-56 | such an argument and the word behind it overlap by 8 bytes |
| `VaList.WalkIsDisjoint` | ics-os/kernel/tccva.c:24-59 | over any sequence of arguments that fit what is set aside for them no two are read from the same bytes |
| `VaList.ScalarsFollowAbi` | ics-os/kernel/tccva.c:32-59 | over any list of words and doubles, in any order, each is read where section 3.5.7 of the System V AMD64 ABI puts it: the registers left of its class in order, then the overflow area |
| `VaList.AlwaysClearIff` | ics-os/kernel/tccva.c:24-59 | over any sequence: all arguments fit, counting off the floating-point registers, if and only if each is clear of whatever may follow it |
| `VaList.OverflowSlotIff` | ics-os/kernel/tccva.c:32-59 | a spilled argument of any class starts where section 3.5.7 of the System V AMD64 ABI puts it if and only if what is set aside for it is a multiple of its alignment |
| `VaList.AlignedPairMisplaced` | ics-os/kernel/tccva.c:48-56 | two doubles aligned to 16 bytes, spilled, are looked for 8 bytes too far |
| `VaList.EndAlignedIff` | ics-os/kernel/tccva.c:51-55 | aligning the end agrees with aligning the start exactly when the size is a multiple of the alignment |
| `VaList.Walker.constructor` | ics-os/kernel/tccva.c:24-30 | the walk starts from the three words the prologue stored |
| `VaList.Walker.Next` | ics-os/sdk/libtcc1.c:702-729 | refines the argument step and keeps the offsets in range |
| `Console.CommitExtends` | extras/ics-esp32-serial-bridge/src/bridge_console.c:59-84 | a newline commits the folded open line and opens an empty one |
| `Console.EditExtends` | extras/ics-esp32-serial-bridge/src/bridge_console.c:86-111 | any other character edits the open line only |
| `Console.RowsScroll` | extras/ics-esp32-serial-bridge/src/bridge_console.c:59-84 | a committed line takes the next empty row, or all rows move up by one |
| `Console.FoldFits` | extras/ics-esp32-serial-bridge/src/bridge_console.c:86-111 | whatever was typed, the folded line fits the row and holds no byte below 32 |
| `Console.PlainShows` | extras/ics-esp32-serial-bridge/src/bridge_console.c:86-111 | a line of printable characters shows its first 28 |
| `Console.ControlIgnored` | extras/ics-esp32-serial-bridge/src/bridge_console.c:86-111 | a carriage return, or any control character but backspace, tab and newline, leaves no trace wherever it stands |
| `Console.TabIsFourBlanks` | extras/ics-esp32-serial-bridge/src/bridge_console.c:86-111 | a tab anywhere has the effect of four blanks |
| `Console.BackspaceUndoes` | extras/ics-esp32-serial-bridge/src/bridge_console.c:86-111 | a backspace after a character that fitted takes it back, whatever follows |
| `Console.BackspaceTakesLast` | extras/ics-esp32-serial-bridge/src/bridge_console.c:86-111 | a backspace takes off the last character of a line and does nothing to an empty one |
| `Console.CommittedLines` | extras/ics-esp32-serial-bridge/src/bridge_console.c:59-84 | the lines committed are those between the newlines, in order |
| `Console.RowsShow` | extras/ics-esp32-serial-bridge/src/bridge_console.c:59-84 | the 39 rows are the last 39 lines, or all lines with empty rows below |
| `Console.PrintedIs` | extras/ics-esp32-serial-bridge/src/bridge_console.c:86-111 | a run prints its characters in order, and paints add nothing |
| `Console.Screen.LineAt` | extras/ics-esp32-serial-bridge/src/bridge_console.c:24-29 | the row shows the matching one of the last 39 committed lines of the whole history |
| `Console.Screen.DirtyCount` | extras/ics-esp32-serial-bridge/src/bridge_console.c:51-57 | counts the dirty rows; when there are none the panel shows the last 39 lines |
| `Console.Screen.Commit` | extras/ics-esp32-serial-bridge/src/bridge_console.c:59-84 | keeps rows, dirty marks and panel in step with the history |
| `Console.Screen.Putc` | extras/ics-esp32-serial-bridge/src/bridge_console.c:86-111 | after any character the rows are the history's last 39 lines and clean rows are on the panel |
| `Console.Screen.Run` | extras/ics-esp32-serial-bridge/src/bridge_console.c:11-111 | the same after any run of characters and paints |
| `Sorting.SwapMovesWhole` | ics-os/sdk/posix.c:1258-1265 | swapping bytes swaps the elements whole |
| `Sorting.SidesSorted` | ics-os/sdk/posix.c:1267-1283 | sorting both sides of a partition sorts the range |
| `Sorting.SwapBytes` | ics-os/sdk/posix.c:1258-1265 | two stretches are exchanged byte by byte, also when they are the same one |
| `Sorting.Partition` | ics-os/sdk/posix.c:1272-1280 | a permutation of the range, split at a pivot |
| `Sorting.SortRange` | ics-os/sdk/posix.c:1267-1283 | sorts the range by permuting it; nothing outside changes |
| `Sorting.QSort` | ics-os/sdk/posix.c:1285-1290 | a sorted permutation of the elements under any total preorder, none torn, not a byte beyond them touched |
| `Sorting.SortedIsSearchable` | ics-os/sdk/posix.c:2177-2191 | what qsort leaves is what bsearch needs, for any key |
| `Sorting.BSearch` | ics-os/sdk/posix.c:2177-2191 | an element equal to the key exactly when there is one |
| `Argv.TokensOfJoin` | ics-os/sdk/crt1.c:13-19 | cutting up a joined line gives the words back |
| `Argv.TokensAreWords` | ics-os/sdk/tccsdk.c:75-120 | whatever the line, its tokens are words |
| `Argv.SurvivesIff` | ics-os/sdk/posix.c:597-618 | an argument vector arrives unchanged if and only if it has 1 to 99 arguments, none empty or with a space, that fit the 4096-byte line |
| `Argv.JoinArgv` | ics-os/sdk/posix.c:597-618 | packs the arguments with single spaces into the buffer, cut and terminated as the code does |
| `Argv.PackIsCut` | ics-os/sdk/posix.c:597-618 | as long as no argument is empty the packed line is the arguments joined by single spaces, cut to one byte less than the buffer |
| `Argv.UnterminatedIff` | ics-os/sdk/posix.c:597-618 | the line is left without a NUL if and only if an argument after the first, none before it being empty, is empty or comes when the line is two short of the buffer |
| `Argv.EmptyArgumentLosesNul` | ics-os/sdk/posix.c:605-611 | a word and an empty argument are such a vector |
| `Argv.Tokenizer.Next` | ics-os/sdk/tccsdk.c:75-120 | the next word, terminated in place, with the cursor on the rest; null when none is left |
| `Argv.Start` | ics-os/sdk/crt1.c:5-20 | the argument pointers are the first 99 words of the line, in order |
| `Argv.Spawn` | ics-os/sdk/crt1.c:5-20 | from posix_spawn in one program to main in the next a vector that fits arrives as it was sent |
| `Numbers.AtMost22Digits` | ics-os/sdk/tccsdk.c:256-258 | no 64-bit number has more than 22 digits in radix 8, 10 or 16 |
| `Numbers.Convert` | ics-os/sdk/tccsdk.c:655-671 | the digits are laid down backwards in the 32-byte buffer and never run out of it |
| `Numbers.StrToUl` | ics-os/sdk/posix.c:1052-1075 | value and end position: blanks, sign, prefix and digits taken as far as they go, the value reduced to 64 bits |
| `Numbers.EndAgreesIff` | ics-os/sdk/posix.c:1052-1075 | the end is where section 7.22.1.4 of ISO/IEC 9899:2011 has it if and only if there are digits, or neither blanks, sign nor prefix before them |
| `Numbers.UnsignedAgreesIff` | ics-os/sdk/posix.c:1052-1075 | the value is the one of that section if and only if the number fits, or leaves the greatest remainder by chance |
| `Numbers.SignedAgreesIff` | ics-os/sdk/posix.c:1077-1080 | likewise for strtol, which wraps where that section asks for the least or greatest long |
| `Numbers.StandardCounterexamples` | ics-os/sdk/posix.c:1052-1075 | 0xg in base 16, a sign without digits, and 2^64 |
| `Numbers.StrToL` | ics-os/sdk/posix.c:1077-1080 | the same, read as signed |
| `Numbers.HornerWraps` | ics-os/sdk/posix.c:1069-1072 | reducing the accumulator at every digit equals reducing once at the end |
| `Numbers.NumberReadsBack` | ics-os/sdk/posix.c:1052-1075 | whatever flags and width a number was printed with, it reads back as itself or its negation |
| `Numbers.SignedRoundTrip` | ics-os/sdk/posix.c:1077-1080 | strtol reads back what %ld printed, the least long included |
| `Numbers.UnsignedRoundTrip` | ics-os/sdk/posix.c:1052-1075 | strtoul reads back what %lu, %lx, %lX and %lo printed |
| `Numbers.DigitValueIs` | ics-os/sdk/posix.c:1042-1050 | a digit of a base up to 36 is worth its place in the alphabet, in either case, and nothing else is a digit |
| `Numbers.ParseReads` | ics-os/sdk/posix.c:1052-1075 | any blanks, sign, prefix, digits of bases 2 to 36 and rest: the value of the digits in their base, negated for a minus sign, in 64 bits, and where the rest begins |
| `Format.PiecesSpell` | ics-os/sdk/tccsdk.c:504-738 | every format string is the spelling of well-formed pieces and an unfinished directive |
| `Format.PiecesUnique` | ics-os/sdk/tccsdk.c:504-738 | that reading is the only one |
| `Format.EmitField` | ics-os/sdk/tccsdk.c:685-727 | sign, padding, text and padding come out in the order the flags call for, for any width |
| `Format.EmitNumber` | ics-os/sdk/tccsdk.c:598-672 | a numeric conversion prints its argument: the sign taken off, converted in the buffer, padded by the flags |
| `Format.DoSprintf` | ics-os/sdk/tccsdk.c:504-738 | for every format and argument list: the characters are those the pieces stand for, the count is their number plus the colour directives modulo 2^32, and the scanner runs past the NUL exactly on the listed unfinished tails |
| `Format.ConversionReadsBack` | ics-os/sdk/tccsdk.c:598-672 | d, i and u print decimal, o octal, X, x, n and p hexadecimal: read in that base the text is the whole word of the argument for a long or a pointer, and its low half, sign-extended by d and i, otherwise |
| `Printed.PrintConcat` | ics-os/sdk/tccsdk.c:504-738 | a format prints what its parts print, the second on the arguments the first has left |
| `Printed.PlainPrints` | ics-os/sdk/tccsdk.c:515-522 | text without a percent sign prints itself and takes no argument |
| `Printed.SignsPrint` | ics-os/sdk/tccsdk.c:526-556 | %% and %-% print a percent sign, %-- and a colour directive nothing; none takes an argument and only the colour directive is counted |
| `Printed.WidthIsDecimal` | ics-os/sdk/tccsdk.c:568-574 | the field width is the decimal number its digits spell, in 32 bits |
| `Printed.DirectivePrints` | ics-os/sdk/tccsdk.c:504-738 | a directive of any flags, width, modifiers and letter takes one argument and prints it by those flags |
| `Printed.NumberIs` | ics-os/sdk/tccsdk.c:598-672 | without a width: a minus sign exactly for a negative number under d or i, and digits of the base of the letter, A-F for X and a-f otherwise, without a leading zero |
| `Printed.NumberFills` | ics-os/sdk/tccsdk.c:685-727 | with a width the same text is filled up to it and never cut: blanks behind it with a dash, zeros after the sign with a zero, blanks before it otherwise |
| `Printed.TextFills` | ics-os/sdk/tccsdk.c:673-727 | a string or character is filled with blanks only, on the side the dash says; a NUL character prints nothing |
| `Printed.PrintThenRead` | ics-os/sdk/posix.c:1052-1075 | a long printed by any directive for longs, with any text around it, reads back as itself in the base of its letter |
| `Format.VsnPrintf` | ics-os/sdk/tccsdk.c:772-786 | what is stored, where the terminator goes and what is returned, for any buffer, null and zero sizes included |
| `Format.ReturnsLengthIff` | ics-os/sdk/tccsdk.c:772-786 | the value returned is the length of the text if and only if the format has no colour directive |
| `Format.StoredIsPrefix` | ics-os/sdk/tccsdk.c:762-786 | the buffer then holds the text cut to size and a NUL, and nothing after it changes |
| `Format.ScannersAgree` | ics-os/sdk/tccsdk.c:260-480 | the console scanner and the buffer scanner read a format without colour directives alike |
| `Format.ScannersDisagree` | ics-os/sdk/tccsdk.c:527-540 | a colour directive to the one is nothing and a letter to the other |
| `Format.VPrint` | ics-os/sdk/tccsdk.c:788-817 | without colour directives the stack, heap and streaming paths send the same bytes; with them the first two add a stale byte for each and the third sends what the other scanner makes of the format |
| `Kexec.AcceptedSoundIff` | ics-os/kernel/kexec.c:62-77 | a segment that passes the checks is sound if and only if no 64-bit sum wraps and filesz <= memsz |
| `Kexec.TameAcceptedIff` | ics-os/kernel/kexec.c:62-77 | on such segments the loader takes exactly the sound ones and never strays |
| `Kexec.StraysIff` | ics-os/kernel/kexec.c:66-79 | of the segments accepted without a sum wrapping, exactly those whose file part ends beyond the stage are read or written outside image and stage |
| `Kexec.StrayImageJumps` | ics-os/kernel/kexec.c:22-130 | an image whose one segment has 16 bytes more in the file than the stage holds is accepted, written past the stage, and jumped to |
| `Kexec.FileByteStaged` | ics-os/kernel/kexec.c:50-84 | with disjoint segments every byte of the file is where its segment puts it |
| `Kexec.OtherBytesZero` | ics-os/kernel/kexec.c:48-84 | every other byte of the stage is zero: tails and gaps |
| `Kexec.SpanCovers` | ics-os/kernel/kexec.c:86-93 | the span covers every segment and stays in the stage |
| `Kexec.LoadIsFaithful` | ics-os/kernel/kexec.c:22-97 | a well-formed image loads, the stage is the memory image of the program header part of chapter 5 of the System V gABI, and the span is that of the highest segment end, at least a page and at most 8 MiB |
| `Kexec.SegmentReadsBack` | ics-os/kernel/kexec.c:50-61 | a program header reads back as the segment laid down, if it is to be loaded |
| `Kexec.ImageReadsBack` | ics-os/kernel/kexec.c:38-61 | of an image with any entry point and any program headers, wherever their table lies, the loader reads exactly that entry point and the loadable segments, in order |
| `Kexec.SucceedsOnChecks` | ics-os/kernel/kexec.c:22-97 | a load succeeds, for any image and whatever lies around it in memory, if and only if each check the loader makes passes |
| `Kexec.RefusedLeaves` | ics-os/kernel/kexec.c:22-48 | what a refused load leaves: no entry point and the stage untouched without the ELF mark, the entry point of the image with it, and no span |
| `Kexec.FileLoads` | ics-os/kernel/kexec.c:104-118 | a file that is missing or shorter than 64 bytes leaves everything as it was; any other is parsed |
| `Kexec.SucceedsIff` | ics-os/kernel/kexec.c:22-97 | where no sum wraps and the segments of a table are disjoint and tame, the loader succeeds exactly on well-formed images, those without a table included |
| `Kexec.JumpsIff` | ics-os/kernel/kexec.c:120-130 | over any run of loads a reboot jumps if and only if the last image parsed passed the checks, straying or not, and has an entry point |
| `Kexec.LatestSucceededIff` | ics-os/kernel/kexec.c:104-118 | a jump says that the latest load succeeded exactly when that load reached the parser |
| `Kexec.StaleImageJumps` | ics-os/kernel/kexec.c:104-118 | a file that cannot be mapped fails to load and leaves the earlier image ready: the reboot jumps to it |
| `Kexec.Loader.LoadSegment` | ics-os/kernel/kexec.c:50-84 | refused by the checks in the order of the code; otherwise the stage holds every byte of copy and clearing that falls in it, straying ones included |
| `Kexec.Loader.ParseElf` | ics-os/kernel/kexec.c:22-97 | result, entry, span, ready flag and stage after any image, malformed and straying ones included |
| `Kexec.Loader.LoadFile` | ics-os/kernel/kexec.c:104-118 | refines a load from a file |
| `Kexec.Loader.Reboot` | ics-os/kernel/kexec.c:120-137 | jumps exactly when an image is ready, its entry is not zero and the trampoline fits |
| `Multiboot.WalkVisitsAll` | ics-os/kernel/kernel32.c:284-365 | each tag of a well-formed block is visited once, in order, and the walk stops at the end tag |
| `Multiboot.OneMemoryMap` | ics-os/kernel/kernel32.c:300-331 | with one memory map the table is its RAM entries, in order, among the first 32 |
| `Multiboot.RamIsFromMap` | ics-os/kernel/kernel32.c:309-330 | every entry of the table has the base and length of a RAM entry of the map, through the split into words |
| `Multiboot.RamHasEntry` | ics-os/kernel/kernel32.c:309-330 | every RAM entry looked at is in the table, at the place given by the RAM entries before it |
| `Multiboot.MapReadsBack` | ics-os/kernel/kernel32.c:300-331 | of a memory map of any entries the table gets the RAM among the first 32, each with its own base and length, whether the entry size is given or zero |
| `Multiboot.BlockDevices` | ics-os/kernel/kernel32.c:291-339 | over any tags the boot device and the screen are those of the last tag that has one, packed byte by byte |
| `Multiboot.BlockLine` | ics-os/kernel/kernel32.c:348-363 | the command line is that of the last such tag, none if it is longer than 255 bytes, and the kernel was kexeced if any line short enough said so |
| `Multiboot.SaysKexecedIff` | ics-os/kernel/kernel32.c:359-362 | a line says so if and only if it opens with that word and a space, a NUL or the end |
| `Multiboot.BlockMaps` | ics-os/kernel/kernel32.c:300-347 | the table is the first 32 RAM regions of all maps, and the root pointer the last of the new kind or else the first of the old, up to 36 bytes |
| `Multiboot.EntriesFit` | ics-os/kernel/kernel32.c:300-310 | entries of at least 20 bytes are read inside their tag |
| `Multiboot.DecodesWithoutScreen` | ics-os/kernel/kexec.c:143-158 | without a framebuffer the block kexec writes reads back as the kexeced command line |
| `Multiboot.DecodesWithScreen` | ics-os/kernel/hardware/vga/fbconsole.c:666-713 | with a framebuffer the command line is told for every address, but the low half of the address is taken for a tag size: the walk loops on 0, goes on among the exported fields on 1 to 32, ends on 33 to 96, and leaves the block on more |
| `Multiboot.ExportedFields` | ics-os/kernel/hardware/vga/fbconsole.c:666-713 | where the 40 exported bytes have address, pitch, size, depth and channels, and the zeros between them |
| `Multiboot.ScreenOnPageNeverEnds` | ics-os/kernel/hardware/vga/fbconsole.c:666-713 | with the framebuffer on a page boundary the walk never ends in the block |
| `Multiboot.ProperScreenDecodes` | ics-os/kernel/kernel32.c:332-339 | laid out as section 3.6 of the Multiboot2 specification has it, the framebuffer would be handed over whole |
| `Multiboot.Gather` | ics-os/kernel/kernel32.c:311-318 | assembling bytes with shifts and ors is reading the little-endian number |
| `Multiboot.NextTag` | ics-os/kernel/kernel32.c:364 | masking rounds the address up to the next multiple of eight, and stands still exactly on size zero |
| `Multiboot.Boot.OnMemoryMap` | ics-os/kernel/kernel32.c:300-331 | refines the reading of a memory map into the table |
| `Multiboot.Boot.OnCommandLine` | ics-os/kernel/kernel32.c:348-363 | refines the reading of the command line, by the size in its header |
| `Multiboot.Boot.WalkTags` | ics-os/kernel/kernel32.c:284-365 | refines the walk over any block, malformed ones and reads beyond a tag included |
| `Multiboot.BeyondIrrelevant` | ics-os/kernel/kernel32.c:291-363 | what the block holds beyond a tag that is read no further than it is long makes no difference |
| `Multiboot.WriteInfo` | ics-os/kernel/kexec.c:143-158 | the 128 bytes left for the next kernel, with and without a framebuffer |

## Left out

- Scheduler, SMP start-up, file systems, drivers (xHCI, virtio, network), sockets and system call wrappers: I/O sequencing rather than a computation to prove something about.
- Floating-point conversions of libtcc1, `sscanf`, `strftime`, the regular expression engine, and the older `number()` formatter: subsets of their standards without a specification of their own.
- The `UDIV_NEEDS_NORMALIZATION` branch of the one-word division: not compiled for this processor.
- Format.DoSprintf: the colours set by a colour directive are not modelled, only that it prints nothing and is counted; after leaving the format string the scanner stops; a missing argument reads as zero, where C leaves it undefined.
- Stdio.Cache.Run: raw writes are taken to be complete, each stream has its own regular file of less than 4 GiB, and reads mixed with pending writes are not modelled; descriptors of devices and pipes are not either.
- VaList.Walker.Next: where an argument is read is modelled, not what the registers saved there hold.
- Argv.Tokenizer.Next: `strtok` with a space as its only delimiter, the only way the start-up code calls it; the kernel's own command line buffers are not modelled.
- Sorting.QSort: the array is at most 2^30 bytes, because user addresses end there; beyond that the `int` indices of the code would overflow.
- Uring.Queue.KernelTurn: two threads inside `io_uring_enter` on one ring at once, and closing a ring in use, are not modelled.
- Kexec.Loader.LoadSegment: what a straying write does outside the stage is not modelled; it is taken to leave the image, the loader's variables and what lies around the image alone.
- Kexec.Loader.Reboot: the copying trampoline and the jump itself are not modelled.
- Multiboot.Boot.WalkTags: what `fbconsole_boot_init` does with the framebuffer is not modelled, only the arguments it is given; a walk that leaves the block is not followed further.
- RpcDemux.Bridge.Ingest: sockets, Wi-Fi, HTTP and flow control around the serial reader are not modelled.
- Older copies of the runtime and third-party code in the repository.
