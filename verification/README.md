# Verification of the easy fiber library

This project models the stateful and arithmetic core of the `easy` C++ library and proves properties of it
with Dafny 4.11. `dafny verify dfyconfig.toml` checks all of it. It has six parts.

**The chunked byte buffer** (`Bits`, `Flat`, `Endian`, `Varint`, `Codec`, `WireFormat`, `Buffer`, `BufferCodec`). `Buffer` is a
heap of linked nodes with `position`, `size`, `capacity` and a cached `cur`, as in `easy/net/Buffer.cc`. Its
abstract value is one flat byte sequence, and every operation is proved against it: reads return slices, writes
splice, growth adds the fewest nodes that suffice, scatter/gather vectors are disjoint tiles in order. On top
stand the typed codecs: fixed-width integers in both byte orders on hosts of both byte orders, unsigned LEB128
varints (section 7.6 of DWARF 4), zigzag under two's complement wrap-around, and length-prefixed strings. The
main result is the round trip of a list of mixed values through the heap, with the exact condition under which it
works.

**Event registration** (`Channel`, `Registration`, `SimpleEvents`, `Waiting`, `IOManager`). Per-descriptor interest bits, the parked
continuations, the global counter, and the kernel's epoll table as a map from descriptor to mask whose `epoll_ctl`
refuses illegal operations and may fail on legal ones. The class methods are proved equal to functions on values,
and those are proved to keep the invariants over every run: conservation of continuations, agreement of bits,
contexts and kernel table, and no illegal `epoll_ctl`.

**Timers** (`TimerBook`, `TimerRuns`, `SimpleTimers`, `Timer`). An ordered set whose keys are mutable members of its elements,
found again by comparison alone. Proved: the order survives all mutations, expiry is exact, one-shots live once,
and how far the timerfd stays armed.

**Scheduler and fibers** (`Scheduler`, `FiberRuns`, `FiberLog`, `Collisions`, `Shutdown`). The task list and `take`; any number of
workers in any interleaving; and shutdown with one pool worker, with the three reads of `canStop` as separate steps.

**The blocking wait** (`DoIo`, `Timeouts`, `Results`). `do_io` as a state machine over the event table and the timers, interleaved
with arbitrary other use of both and with the timeout callbacks of this call; and exactly when a timeout ends a wait.

**A printer and a parser** (`Digits`, `Ipv6Text`, `LogFormatter`). The IPv6 text of `IPv6Address::insert` against
a reader for forms 1 and 2 of section 2.2 of RFC 4291, and the log pattern compiler against a grammar and a printer.

## Assumptions and reading of the code

- Each operation that holds a lock for its whole body is one step. `listExpiredCallback` is one step although it
  drops its read lock before it takes the write lock.
- Giving up a worker is one step in `FiberRuns`: HOLD, context switch, and the state written by `handleFiber`. The
  code does not make these atomic.
- Clock readings, kernel answers, epoll reports, thread ids, addresses of new timers, and the interleaving are
  arbitrary inputs.
- Where the code departs from its evident intent, the code is modelled:
  - `write` (easy/net/Buffer.cc:399) has its `while (size > 0) {` inside a comment, so it stores at most one
    node's worth of bytes after growing for all of them. `Buffers.Buffer.Write` is that single pass;
    `Buffers.Buffer.WriteLooped` iterates the same pass. Every codec result is stated for both forms.
  - `read` of zero bytes dereferences a null `cur_` when the position is the capacity, and the positional `read` and
    `getReadBuffers` walk off the chain for some arguments. This is the outcome `NullCursor`.
  - The rollover threshold is 3600 ms, since a constant in seconds is passed as milliseconds
    (easy/base/Timer.cc:211).
  - The dispatch loop decrements the counter once per reported event, whether or not `handleEvent` did anything
    (easy/base/IOManager.cc:387-396).
- Properties that are false of the code have a concrete witness and an exact condition:
  - the round trip of values: `BufferCodec.ShippedWriteLosesBytes` and `BufferCodec.RoundTrip`;
  - the positional `read`: `Buffers.Buffer.ReadAtIsAtP`, whose proof gives the bytes that differ;
  - the event counter: `Registration.ReportOutsideInterest` and `Registration.ReachableCount`;
  - the arming of the timerfd: `TimerBook.PostponedTimerIsForgotten` and `TimerBook.TickArms`;
  - fibers that ask for several wake-ups: `FiberRuns.TwoWakeUpsCollide` and `Collisions.OneWakeUpIsExact`;
  - shutdown: `Shutdown.TimerBetweenReadsIsLost` and `Shutdown.ExitDrainsExactly`;
  - a wait of `do_io` ended by an older timeout: `Timeouts.StaleCallbackEndsNextWait` and
    `Timeouts.OwnTimeoutIsExact`;
  - a timeout of `do_io` that wakes nobody: `Timeouts.LostTimeoutRun` and `Timeouts.TimeoutWakesExactly`;
  - the compiler as inverse of the printer: `LogFormatter.CompilerInvertsPrinter`, in both directions.

## Model

| member | source | states |
|---|---|---|
| Varint.Encode | easy/net/Buffer.cc:167-193 | The encoding loop never overruns its array of 5 bytes for 32-bit words and 10 for 64-bit words, and the bytes it hands to `write` are the LEB128 encoding of the word. |
| Varint.TmpSuffices | easy/net/Buffer.cc:167-193 | Every 32-bit word takes 1 to 5 bytes and every 64-bit word 1 to 10. |
| Varint.ReadVarintInverts | easy/net/Buffer.cc:277-315 | The decoding loop, with its shifts, masks and truncation, returns every word from its encoding, consumes exactly the encoding, and ignores what follows. |
| Varint.EncodingIsShortest | easy/net/Buffer.cc:277-315 | Whatever bytes decode to a word, there are at least as many of them as `write` would have produced. |
| Varint.EncodeZigzagMeaning | easy/net/Buffer.cc:137-159 | Zigzag maps 0, -1, 1, -2, ... to 0, 1, 2, 3, ... within the word, including the minimum value whose negation wraps. |
| Varint.DecodeZigzagMeaning | easy/net/Buffer.cc:161-163 | `(v >> 1) ^ -(v & 1)` on unsigned words, converted to signed, is the inverse of that order. |
| Varint.ZigzagBijection | easy/net/Buffer.cc:137-163 | Encoding and decoding are inverse in both directions between all signed and all unsigned words of either width. |
| Endian.FixedBytesOrder | easy/net/Buffer.cc:79-135 | The stream holds a fixed-width value in the buffer's byte order on a host of either byte order, although the code swaps and copies host memory. |
| Endian.FixedValueOrder | easy/net/Buffer.cc:249-271 | Reading interprets the stream in the buffer's byte order on a host of either byte order. |
| Endian.FixedRoundTrip | easy/net/Buffer.cc:79-271 | A value written on any host is read back on any other. |
| Codec.ReadInverts | easy/net/Buffer.cc:209-367 | Reading a value's type from its encoding gives the value and consumes exactly the encoding; a string longer than its length prefix can say comes back as a proper prefix of itself. |
| Codec.ReadBound | easy/net/Buffer.cc:235-367 | Whatever bytes a typed read accepts, its result is a value of that type whose encoding is no longer than what was consumed. |
| Codec.ReadAllInverts | easy/net/Buffer.cc:79-367 | Reading the types of any list of mixed values from its encoding gives the list back if every string length fits its prefix, and never otherwise. |
| Codec.ReadAllBound | easy/net/Buffer.cc:235-367 | A list that was read never encodes to more bytes than the reads consumed. |
| WireFormat.Ranges | easy/net/Buffer.cc:79-233 | The values of each integer type and the lengths each prefix holds are exactly those of the C++ types of 8, 16, 32 and 64 bits, signed and unsigned. |
| WireFormat.UintWire | easy/net/Buffer.cc:79-135 | An unsigned integer takes 1, 2, 4 or 8 bytes, which stand for its value in the buffer's byte order. |
| WireFormat.Uint32Digits | easy/net/Buffer.cc:110-117 | For a 32-bit integer in a big-endian buffer these are its four base-256 digits. |
| WireFormat.IntWire | easy/net/Buffer.cc:79-126 | A signed integer is stored as the two's complement of its width. |
| WireFormat.VarintIsLeb128 | easy/net/Buffer.cc:167-193 | The varint of a number is its LEB128 form: seven bits a byte, the high bit on all but the last, no byte wasted. |
| WireFormat.VarUintWire | easy/net/Buffer.cc:167-193 | A varint value is that form, in at most 5 or 10 bytes. |
| WireFormat.VarIntWire | easy/net/Buffer.cc:165-180 | A signed varint value is the varint of its zigzag form. |
| WireFormat.StringWire | easy/net/Buffer.cc:209-231 | A string is its length, cut to 16, 32 or 64 bits or as a varint, and its bytes, in two calls of `write`. |
| WireFormat.WritesWire | easy/net/Buffer.cc:79-233 | Every other value is one call of `write`, and the calls together are the encoding. |
| WireFormat.UintFromWire | easy/net/Buffer.cc:242-271 | A fixed-width read takes 1, 2, 4 or 8 bytes of any stream in the buffer's byte order, and nothing from a shorter one. |
| WireFormat.IntFromWire | easy/net/Buffer.cc:235-271 | The signed reads give the two's complement of the same number. |
| WireFormat.VarUintFromWire | easy/net/Buffer.cc:277-315 | On any bytes the decoding loop reads up to the first one below 0x80 but no more than 5 or 10, and returns their LEB128 value modulo the word. |
| WireFormat.VarIntFromWire | easy/net/Buffer.cc:275-296 | The signed varint reads undo zigzag on that. |
| WireFormat.StringFromWire | easy/net/Buffer.cc:333-367 | A string read is as many bytes of the stream as its length says; with fewer left, only the length has been read. |
| Flat.FlattenRead | easy/net/Buffer.cc:446-446 | The bytes at an offset of node k are the flat slice at k times the node size plus that offset. |
| Flat.FlattenWrite | easy/net/Buffer.cc:403-403 | Overwriting inside one node splices the flat sequence at the same place and nothing else. |
| Flat.CutsTile | easy/net/Buffer.cc:652-670 | The pieces of a range are nonempty, each inside one node, and each starts where the previous one ends. |
| Flat.TilesDisjoint | easy/net/Buffer.cc:652-670 | Of two pieces of a range the earlier one ends at or before the start of the later one. |
| Flat.CutsActFlat | easy/net/Buffer.cc:638-749 | For every node size, reading the pieces of a range gives that flat slice, and filling them splices the flat sequence at the start of the range. |
| Flat.RoundUpLeast | easy/net/Buffer.cc:584-603 | No smaller multiple of the node size would hold the demanded bytes. |
| Buffers.Buffer.constructor | easy/net/Buffer.cc:30-39 | A new buffer is one node with position and size 0, big-endian, and valid exactly if its node size is positive. |
| Buffers.Buffer.Wrap | easy/net/Buffer.cc:41-48 | A wrapped memory block is readable in full, byte for byte, and gives a valid buffer exactly if it is not empty. |
| Buffers.Buffer.CursorOfPosition | easy/net/Buffer.cc:397-423 | In every valid state `cur_` is node `position_ / baseSize_`, and null exactly at the capacity. |
| Buffers.Buffer.AddCapacity | easy/net/Buffer.cc:572-609 | Growth reaches exactly the least whole number of nodes that holds the demand, keeps all old bytes, and repairs a null cursor. |
| Buffers.Buffer.WritePass | easy/net/Buffer.cc:400-428 | One pass stores the bytes that fit the current node at the position, moves the position and the cursor, and keeps every other byte. |
| Buffers.Buffer.Write | easy/net/Buffer.cc:388-429 | The shipped `write` grows for all its input but stores only the bytes that fit the node of the position. |
| Buffers.Buffer.WritePasses | easy/net/Buffer.cc:397-428 | Iterating the pass until the input is used up stores all of it at the position and keeps every other byte. |
| Buffers.Buffer.WriteLooped | easy/net/Buffer.cc:388-429 | With its loop, `write` splices all its input at the position and keeps all other old bytes, with the least sufficient capacity. |
| Buffers.Buffer.Read | easy/net/Buffer.cc:431-467 | `read` returns exactly the flat slice at the position and moves behind it; it refuses more than is readable; zero bytes at the capacity meet the null cursor. |
| Buffers.Buffer.ReadAt | easy/net/Buffer.cc:468-503 | For any position the positional `read` returns the flat slice at the offset of that position in the cursor's node, without moving; it dereferences null exactly if there is no cursor's node or that slice runs past the chain. |
| Buffers.Buffer.ReadAtIsAtP | easy/net/Buffer.cc:475-478 | That is the slice at the given position, whatever the bytes, if and only if nothing is read or the position lies in the cursor's node. |
| Buffers.Buffer.ToString | easy/net/Buffer.cc:611-621 | Exactly the readable bytes, also when there are none. |
| Buffers.Buffer.SetPosition | easy/net/Buffer.cc:504-525 | Positions up to the capacity are accepted, with the walk ending at the right node (none at the capacity) and the size raised if passed; others are refused and nothing changes. |
| Buffers.Buffer.Clear | easy/net/Buffer.cc:369-386 | Leaves the first node and its bytes, with position and size 0. |
| Buffers.Buffer.GetReadBuffers | easy/net/Buffer.cc:638-672 | The vectors are the tiles of the readable bytes from the position, at most the wanted number, and joined they are that flat slice. |
| Buffers.Buffer.GetReadBuffersAt | easy/net/Buffer.cc:673-713 | The same from any position, with the length clipped to what is readable from the buffer's own position; if that runs past the chain, and only then, the walk dereferences null. |
| Buffers.Buffer.WalkNodes | easy/net/Buffer.cc:652-670 | The loop that all the vector builders share makes exactly the tiles of its range, and meets null exactly if the range runs past the chain. |
| Buffers.Buffer.GetWriteBuffers | easy/net/Buffer.cc:715-749 | Grows just enough and returns the tiles of the wanted range at the position, moving nothing. |
| Buffers.Buffer.FillCuts | easy/net/Buffer.cc:728-747 | Filling vectors one after another changes exactly the bytes of their tiles. |
| Buffers.Buffer.FillBuffers | easy/net/Buffer.cc:715-749 | Filling those vectors in order splices the flat sequence at the position. |
| Buffers.Buffer.WriteThroughBuffers | easy/net/Buffer.cc:504-749 | Getting write buffers, filling them and setting the position has exactly the effect of the looped `write`. |
| Buffers.OverwrittenTwice | easy/net/Buffer.cc:388-429 | Two stores in a row are one store of the joined bytes. |
| BufferCodec.StoredIffFits | easy/net/Buffer.cc:388-429 | A list of `write` calls stores all its bytes if and only if each call fits its node, or `write` loops. |
| BufferCodec.FittingCapacity | easy/net/Buffer.cc:572-609 | Calls that fit leave the least capacity that holds what they wrote. |
| BufferCodec.WriteValue | easy/net/Buffer.cc:79-233 | Each typed write changes the heap exactly as its `write` calls prescribe, in either form of `write`; what those calls are is said by the `WireFormat` rows. |
| BufferCodec.WriteValues | easy/net/Buffer.cc:79-233 | So does a whole list of typed writes. |
| BufferCodec.ReadVarintLoop | easy/net/Buffer.cc:277-315 | The byte-by-byte loop on the heap returns what the decoder prescribes for the readable stream and consumes as much, also when the stream runs out. |
| BufferCodec.ReadValue | easy/net/Buffer.cc:235-367 | Each typed read returns what the stream prescribes, moves by what it consumed and leaves the rest of the stream; an empty string at the capacity faults. |
| BufferCodec.ReadValues | easy/net/Buffer.cc:235-367 | Reading a list of types succeeds exactly when the stream holds one and its last value is not an empty string that ends at the capacity. |
| BufferCodec.StoredReadsBack | easy/net/Buffer.cc:79-367 | The bytes actually stored for a list, followed by any others, read as that list if and only if every call fits and every length fits. |
| BufferCodec.EndsAtCapacity | easy/net/Buffer.cc:572-609 | When a list that fits ends exactly at the capacity, in terms of what is known before writing. |
| BufferCodec.RoundTrip | easy/net/Buffer.cc:79-525 | Writing any list of mixed values, moving back and reading its types on the heap returns the list and ends where writing ended if and only if the list survives: every call fits its node, every length its prefix, and the end is not an empty string at the end of the chain. Writing ends behind what was stored, which for a list that survives is its whole encoding. |
| BufferCodec.ShippedWriteLosesBytes | easy/net/Buffer.cc:399-399 | A 16-bit integer at the last byte of a node does not survive the shipped `write` and does survive the looped one. |
| Channels.HandleMoves | easy/base/Channel.cc:24-42 | Handling an event clears exactly its bit, keeps the channel consistent, and moves what the bit parked, and nothing else, to the scheduler. |
| Channels.Channel.HandleEvent | easy/base/Channel.cc:24-42 | The method does that to the channel's fields; a clear bit changes nothing. |
| Channels.Channel.CleanUp | easy/base/Channel.cc:17-22 | Empties one context and nothing else. |
| Registration.AddEventStep | easy/base/IOManager.cc:105-162 | `addEvent` returns 0 exactly when the bit is clear and the kernel agrees; then it sets that bit of that channel only, parks its continuation with its scheduler, and schedules nothing; otherwise it changes nothing. The kernel table stays in agreement and the operation issued is legal. |
| Registration.RemoveEventStep | easy/base/IOManager.cc:164-201 | `removeEvent` returns true exactly when the bit is set and the kernel agrees; then it clears that bit only and drops exactly one parked continuation without scheduling it; otherwise it changes nothing. |
| Registration.CancelEventStep | easy/base/IOManager.cc:203-238 | `cancelEvent` returns true exactly when the bit is set and the kernel agrees; then it clears that bit only and schedules exactly what it parked; otherwise it changes nothing. |
| Registration.CancelAllStep | easy/base/IOManager.cc:240-282 | `cancelAll` succeeds exactly when some bit is set and the kernel agrees; then it schedules everything the descriptor parked, reading first, and leaves no bit set, which its last assertion demands. |
| Registration.DispatchStep | easy/base/IOManager.cc:354-397 | Serving a report answers exactly the reported events the channel waits for, reading first, conserves continuations and keeps agreement; the counter falls behind the bits by exactly the served events outside the channel's interest. |
| Registration.DispatchAnswers | easy/base/IOManager.cc:354-397 | In terms of the report itself: a bit is cleared, and what it parked scheduled, if and only if it was set, the kernel agreed, and its event or an error was reported; nothing else changes. |
| Registration.FailureWakesAll | easy/base/IOManager.cc:356-396 | An accepted report of an error or hang-up leaves the descriptor idle and schedules everything that waited on it, reading first. |
| Registration.ReplaceChannel | easy/base/IOManager.cc:132-192 | The ADD, MOD or DEL that the code picks from old and new mask is always legal for the kernel table. |
| Registration.KernelRefuses | easy/base/IOManager.cc:132-141 | The table of the kernel: it refuses and counts an ADD of what it has and a MOD or DEL of what it has not, and otherwise does as told or nothing. |
| Registration.NextInvariant | easy/base/IOManager.cc:105-397 | Every operation, with every kernel answer, keeps contexts matching bits, the kernel table equal to the masks, no illegal `epoll_ctl`, and conservation; the counter never gains on the bits, and keeps its distance if and only if the operation is not a served report outside the interest. |
| Registration.ReachableInvariant | easy/base/IOManager.cc:105-397 | These hold in every reachable state. |
| Registration.ReachableCount | easy/base/IOManager.cc:105-397 | In a reachable state the counter is the number of set bits if and only if every report served so far lay within its channel's interest. |
| Registration.AcceptedOnceIsOnePlace | easy/base/IOManager.cc:105-397 | After any run a continuation accepted once is exactly one of parked, scheduled once, or dropped. |
| Registration.QueueGrows | easy/base/Channel.cc:32-39 | What was handed to the scheduler is never taken back or reordered. |
| Registration.ZeroMeansNothingParked | easy/base/IOManager.cc:297-297 | A zero count of bits means no interest anywhere and nothing parked, and conversely. |
| Registration.ReportOutsideInterest | easy/base/IOManager.cc:387-396 | A run in which a report is served after one of its two events was cancelled, which makes the counter wrong. |
| SimpleEvents.EventsAreSimple | easy/base/IOManager.cc:105-397 | Every run, with any kernel answers and reports, is a run of a map from descriptor and event to the continuation that waits: set by `addEvent`, dropped by `removeEvent`, and scheduled in the same order by cancels and reports. |
| Waiting.HeldOrQueued | easy/base/IOManager.cc:105-397 | Through any operation but its own removal, a parked continuation stays in the context of its descriptor and event or is handed to the scheduler. |
| IOManagers.IOManager.ResizeChannels | easy/base/IOManager.cc:78-90 | Adds idle channels up to the wanted number, distinct from the old ones, which it keeps. |
| IOManagers.IOManager.AddEvent | easy/base/IOManager.cc:105-162 | The method on the channel objects does exactly what the function on values does, and keeps validity. |
| IOManagers.IOManager.RemoveEvent | easy/base/IOManager.cc:164-201 | Likewise for `removeEvent`. |
| IOManagers.IOManager.CancelEvent | easy/base/IOManager.cc:203-238 | Likewise for `cancelEvent`. |
| IOManagers.IOManager.CancelAll | easy/base/IOManager.cc:240-282 | Likewise for `cancelAll`, whose final assertion holds. |
| IOManagers.IOManager.Serve | easy/base/IOManager.cc:354-397 | Likewise for the dispatch of one report, including errors and hang-ups. |
| TimerBook.LessIsStrictOrder | easy/base/Timer.cc:22-45 | The comparator is a strict total order: by expiration, then by address, with null first. |
| TimerBook.AddKeeps | easy/base/Timer.cc:114-120 | Adding puts the timer into the set at `now` plus its interval, with the interval, repetition and callback it was given, arms the timerfd for it exactly if it is first, touches no other timer, and keeps the set strictly sorted and holding each timer made with a callback exactly while its `cb_` is set. |
| TimerBook.CancelKeeps | easy/base/Timer.cc:55-66 | So does `cancel`, which returns true exactly when `cb_` is set; then the timer, and no other, was in the set and no longer is. |
| TimerBook.RefreshKeeps | easy/base/Timer.cc:68-84 | So does `refresh`, which succeeds exactly when `cb_` is set (the lookup never fails), moves the timer to `now` plus its interval, and touches neither other timers nor the timerfd. |
| TimerBook.ResetKeeps | easy/base/Timer.cc:86-108 | So does `reset`, which succeeds exactly when `cb_` is set or nothing is to change, and restarts the timer from `now` or from its old start with the new interval. |
| TimerBook.DueExact | easy/base/Timer.cc:157-161 | The harvested prefix is exactly the timers that expire at or before `now`, whatever the addresses of ties. |
| TimerBook.ServeAllExact | easy/base/Timer.cc:166-178 | The loop over the expired timers puts back each repeater at `now` plus its interval, clears each one-shot, and touches no other timer. |
| TimerBook.ExpireExact | easy/base/Timer.cc:136-189 | `listExpiredCallback` emits, in set order, exactly the callbacks of the due timers (all if the clock went back by more than 3600 ms), puts repeaters back at `now` plus their interval, clears one-shots, and touches nothing else. |
| TimerBook.AddArms | easy/base/Timer.cc:191-199 | Adding keeps the timerfd set for no later than the earliest pending timer. |
| TimerBook.CancelArms | easy/base/Timer.cc:55-66 | So does `cancel`. |
| TimerBook.RefreshArms | easy/base/Timer.cc:68-84 | So does `refresh`, which never re-arms, under a clock that does not go back. |
| TimerBook.ResetArms | easy/base/Timer.cc:86-108 | So does `reset`. |
| TimerBook.TickArms | easy/base/Timer.cc:148-188 | What a tick leaves in the timerfd: nothing if it harvests nothing; otherwise exactly the earliest pending expiration if that is valid or was set by the tick itself; and nothing in the remaining cases. |
| TimerBook.TickRearms | easy/base/Timer.cc:148-188 | A tick under a forward clock that harvests and leaves a valid earliest expiration, or none, leaves the timerfd set in time for every pending timer. |
| TimerBook.PostponedTimerIsForgotten | easy/base/Timer.cc:150-154 | A refreshed timer that the next tick finds not due stays pending with no timerfd set. |
| TimerRuns.NextInvariant | easy/base/Timer.cc:55-199 | Every operation keeps the order and the life of every timer. |
| TimerRuns.OneShotLifecycle | easy/base/Timer.cc:55-199 | After any mix of operations and clock readings a one-shot with a callback is exactly one of pending, fired once, cancelled once. |
| TimerRuns.CancelledIsFinal | easy/base/Timer.cc:55-66 | After `cancel` returned true, the callback is never emitted again and `cancel` never returns true again, whatever follows. |
| TimerRuns.EmitsWhatWasMade | easy/base/Timer.cc:136-189 | An expiry emits, per fired timer, the callback it was made with, after everything emitted before. |
| TimerRuns.IntervalsAsGiven | easy/base/Timer.cc:47-108 | Through every run a timer's interval is the one it was given last. |
| TimerRuns.RepeaterIsPutBack | easy/base/Timer.cc:166-173 | After any run, a repeater that is due at a tick is pending again one interval after the tick, the interval being the one it got from `addTimer` or its last successful `reset`. |
| TimerRuns.StaysArmed | easy/base/Timer.cc:68-199 | Over any run of additions, cancels, refreshes, resets and such ticks under a clock that does not go back, the timerfd stays set for no later than the earliest pending timer. |
| TimerRuns.NextOrder | easy/base/Timer.cc:55-199 | No operation brings a known timer back into the set. |
| SimpleTimers.TimersAreSimple | easy/base/Timer.cc:55-199 | Every run, with any clock readings, is a run of a plain map of pending timers that expire one interval after they were started: by `addTimer`, `refresh`, `reset` from now, or a tick that served them. |
| Timers.TimerManager.Find | easy/base/Timer.cc:61-75 | Lookup by comparator finds a member exactly when it is in the set, and finds that very object. |
| Timers.TimerManager.LowerBound | easy/base/Timer.cc:157-157 | Everything before the result is below the key, and the result is not. |
| Timers.TimerManager.TakeOut | easy/base/Timer.cc:75-80 | `find` and `erase` remove exactly the timer looked for, and report exactly whether it was there. |
| Timers.TimerManager.InsertTimer | easy/base/Timer.cc:193-193 | The new member goes where its key belongs. |
| Timers.TimerManager.AddTimer | easy/base/Timer.cc:191-199 | Inserts, and arms the timerfd exactly when the timer became the first. |
| Timers.TimerManager.MakeTimer | easy/base/Timer.cc:114-120 | A new timer joins the set with its interval read as a signed 64-bit number; nothing else changes. |
| Timers.TimerManager.Cancel | easy/base/Timer.cc:55-66 | The method on timer objects does exactly what the function on values does; its unchecked `find` never returns `end()`. |
| Timers.TimerManager.Refresh | easy/base/Timer.cc:68-84 | Likewise for `refresh`, which changes the key only outside the set. |
| Timers.TimerManager.Reset | easy/base/Timer.cc:86-108 | Likewise for `reset`. |
| Timers.TimerManager.DetectClockRollover | easy/base/Timer.cc:207-217 | Rollover is a step back by more than 3600 ms; the reading is remembered. |
| Timers.TimerManager.EndOfDue | easy/base/Timer.cc:155-161 | The lower bound of a key at `now`, at whatever address it was allocated, moved past the ties, ends exactly the due timers. |
| Timers.TimerManager.ListExpired | easy/base/Timer.cc:136-189 | Likewise for `listExpiredCallback`, with the same emitted callbacks. |
| Schedulers.TakeExact | easy/base/Scheduler.cc:157-177 | `take` gives a thread the first task that is neither pinned elsewhere nor executing, keeps the others in order, and returns nothing only if there is none. |
| Schedulers.Scheduler.ScheduleNonBlock | easy/base/Scheduler.h:83-93 | Appends a task with a fiber or a callback, drops any other, and asks for a wake-up exactly when the list was empty. |
| Schedulers.Scheduler.Schedule | easy/base/Scheduler.h:54-70 | The nonempty tasks of a range are appended in order, with one wake-up request exactly when the list was empty and the range was not. |
| Schedulers.Scheduler.TakeTask | easy/base/Scheduler.cc:157-177 | The loop of `take` is the function that `TakeExact` describes. |
| Schedulers.BoundedBypass | easy/base/Scheduler.cc:157-177 | An unpinned task with k ahead of it that stays runnable is taken within k + 1 calls by any workers, however many tasks are pushed meanwhile. |
| Schedulers.TakenInPushOrder | easy/base/Scheduler.cc:157-177 | If every `take` finds the head of the list eligible, the tasks are taken in push order. |
| Schedulers.SoleWorkerTakesInOrder | easy/base/Scheduler.cc:157-177 | A sole worker takes tasks in push order if each is unpinned or pinned to it and none of their fibers executes at its calls. |
| Schedulers.TasksConserved | easy/base/Scheduler.cc:157-177 | Over any run no task is lost or duplicated. |
| FiberRuns.NextKeeps | easy/base/Scheduler.cc:142-221 | Every step of any worker or event keeps: one worker per executing fiber, one outstanding wake-up per fiber, and taken fibers not executing. |
| FiberRuns.RunKeeps | easy/base/Scheduler.cc:142-221 | So does every run of programs that ask for one wake-up at a time. |
| FiberRuns.NoFiberRunsTwice | easy/base/Fiber.cc:112-126 | In any interleaving no fiber executes on two workers at once, and the assertion of `sched_resume` never fails. |
| FiberLogs.NothingIsLost | easy/base/Scheduler.cc:142-221 | In any interleaving of any programs, every callback posted and every fiber spawned or woken is exactly one of: listed, held by one worker, seen to start, or put away because the fiber had ended by its own last yield. |
| FiberLogs.ResumeStarts | easy/base/Scheduler.cc:206-219 | A worker that holds a callback goes on to execute a fiber that did not exist before; one that holds a fiber executes that fiber, unless it had ended. |
| FiberLogs.EndedIsFinal | easy/base/Scheduler.cc:146-154 | A fiber that has ended never executes again. |
| FiberLogs.RegistrationsConserved | easy/base/IOManager.cc:143-161 | Over any run every registration of a fiber is outstanding, fired, or removed. |
| FiberRuns.WakeUpBeforeYield | easy/base/Scheduler.cc:169-172 | A run in which a wake-up is queued before its fiber has yielded; no thread takes it. |
| FiberRuns.TwoWakeUpsCollide | easy/base/IOManager.cc:143-161 | Without the assumption of one outstanding wake-up, a run in which a second worker holds a fiber that already executes. |
| Collisions.SecondWakeUpFails | easy/base/IOManager.cc:143-161 | A running fiber that asks for a second wake-up, by registering or by yielding READY, makes a run possible in which a worker holds a task that the assertion of `sched_resume` forbids to resume. |
| Collisions.OneWakeUpIsExact | easy/base/Scheduler.cc:142-221 | With two or more workers, in every state reached by programs that ask for one wake-up at a time, a further step is safe in all such continuations if and only if it asks for no second wake-up. |
| Shutdown.ExitDrainsTasks | easy/base/Scheduler.cc:179-221 | With one pool worker and no scheduling from outside after `stop`, `run` exits only with an empty task list, and the take before it returned nothing. |
| Shutdown.EveryTaskIsWorked | easy/base/Scheduler.cc:192-220 | Every task scheduled is in the list or was taken, the worker works on what it takes in that order, and when it leaves `run` it has worked on every task there was. |
| Shutdown.ExitDrainsAll | easy/base/IOManager.cc:297-303 | And with no timer and no pending event, if no other thread adds one between the reads of `canStop`. |
| Shutdown.ExitDrainsExactly | easy/base/IOManager.cc:297-303 | Whatever other threads did before `stop`, `run` returns with no timer and no pending event if and only if `stop` did not meet `canStop` past a read of a zero that had become wrong. |
| Shutdown.TimerBetweenReadsIsLost | easy/base/IOManager.cc:297-297 | A run in which a timer added between those reads is left behind. |
| DoIo.NextKeeps | easy/base/hook.cc:117-173 | Every step of the call, of its timeout callbacks and of everybody else keeps the account of the waiting fiber and of its timers, the blame of a timer that fired for every callback and for the flag, and the place where the parked fiber is held. |
| DoIo.RunKeeps | easy/base/hook.cc:117-173 | So does every run. |
| DoIo.WaitIsExact | easy/base/hook.cc:117-173 | Readiness and timeouts in any order queue the fiber exactly once per successful `addEvent` and wake-up, nothing of it stays registered, on every return no timer the call made is in `timers_`, and a call that returns timed out had a timer that fired. |
| DoIo.BitClearAfterWake | easy/base/hook.cc:160-170 | When the fiber resumes its event's bit is clear, unless someone else has registered for the event since. |
| DoIo.CancelLocalKeeps | easy/base/hook.cc:152-164 | After `timer->cancel()` no timer of the call is pending, whether or not it had fired. |
| Results.ResultIsExact | easy/base/hook.cc:122-173 | Over every run from its beginning a call returns the outcome of the system call if and only if that was made and neither blocked nor was interrupted, a failed registration if and only if one of its own was refused and it gave up, and a timeout if and only if it read the flag set. |
| Results.RefusedIff | easy/base/IOManager.cc:125-141 | Its registration is refused exactly when the kernel refuses or someone waits for the event already. |
| Results.OnlyCompletes | easy/base/hook.cc:122-173 | A call that returns with no registration refused and no timer fired has completed its system call. |
| Results.NoTimeoutNoTimer | easy/base/hook.cc:133-147 | Without a timeout a call makes no timer. |
| Results.CanReturn | easy/base/hook.cc:122-173 | A call that is not parked, or is queued, can return by steps of its own. |
| Timeouts.OwnTimeoutIsExact | easy/base/hook.cc:122-170 | In every continuation of an attempt the flag is set only after the timer of the attempt has fired and left `timers_`, if and only if no callback was left over and the flag was clear when the attempt started. |
| Timeouts.StaleEndsWait | easy/base/hook.cc:137-168 | With the flag set or a callback left over when an attempt starts, a continuation wakes the fiber with the flag set and the timer of the attempt pending. |
| Timeouts.StaleCallbackEndsNextWait | easy/base/hook.cc:122-170 | From any beginning of a call: readiness wins over an expired timer, the call tries again, and the callback left over makes it return timed out although its second timer was pending and never fires. |
| Timeouts.TimeoutWakesExactly | easy/base/hook.cc:133-160 | Once the callback has run to its end, a parked fiber that nothing else touches is queued if and only if the callback had not ended before the registration. |
| Timeouts.TimeoutWakes | easy/base/hook.cc:137-148 | A callback that runs to its end after the registration has queued the fiber, whatever else happens to the event table. |
| Timeouts.TimeoutIsLost | easy/base/hook.cc:137-148 | From there no step of timers or callbacks ever queues the fiber: only readiness or a cancel by others can. |
| Timeouts.LostTimeoutRun | easy/base/hook.cc:133-160 | From any beginning of a call: the timer expires before the registration, its callback finds nothing to cancel, and the fiber is parked with no timer left. |
| Timeouts.FirstCallCanBeStale | easy/base/hook.cc:117-173 | The stale timeout happens to the first call of a program that has done nothing else, whatever it waits for. |
| Timeouts.FirstCallCanBeLost | easy/base/hook.cc:117-173 | So does the lost timeout. |
| Digits.TextRoundTrip | easy/net/Address.cc:431-438 | Numbers printed in base 10 or 16 are read back. |
| Digits.NoLeadingZero | easy/net/Address.cc:431-438 | No number but 0 is printed with a leading zero. |
| Digits.TextIsCanonical | easy/net/Address.cc:431-438 | The printed text is the only one in lower-case digits without a leading zero that reads as the number. |
| Ipv6Text.Insert | easy/net/Address.cc:411-440 | The loop with `used_zeros` prints the groups with the first run of zeros as `::`. |
| Ipv6Text.ReadInvertsText | easy/net/Address.cc:411-440 | Every address and port is read back from its text by a reader for section 2.2 of RFC 4291. |
| Ipv6Text.TextIsInjective | easy/net/Address.cc:411-440 | No two addresses with ports print alike. |
| Ipv6Text.AtMostOneDouble | easy/net/Address.cc:411-440 | The text has at most one `::`, and one exactly when some group is zero. |
| Ipv6Text.DoubleIsFirstRun | easy/net/Address.cc:411-440 | The `::` stands for the whole first run of zero groups; the groups before and after it are printed. |
| LogFormatter.Scan | easy/base/LogFormatter.cc:37-83 | The index loop with its status reads exactly the tokens of the grammar. |
| LogFormatter.Compile | easy/base/LogFormatter.cc:37-127 | Every token becomes its text or its unit in order, a unit of one of the 14 letters with its argument and any other as the error text, and `error_` is set exactly when there is such another. |
| LogFormatter.CompilerInvertsPrinter | easy/base/LogFormatter.cc:37-83 | Compiling the printed form of a token list gives the list back if and only if the list is unambiguous: no `%` literal, no `}` in an argument, no bare unit before text that looks like an argument. |
| LogFormatter.TokensCover | easy/base/LogFormatter.cc:48-83 | The texts of the tokens, joined, are the whole pattern except a lone final `%`. |
| LogFormatter.TokensShrink | easy/base/LogFormatter.cc:48-83 | Printing what was compiled never gives more text than the pattern had; only empty braces are lost. |

## Left out

- BufferCodec.ReadValue: does not model the allocation failure of `std::string::resize` on a huge stored length, which the source meets before it checks how much is readable.
- FiberRuns.NoFiberRunsTwice: assumes the atomic yield described above; its other assumption, one outstanding wake-up per fiber, is exact by `Collisions.OneWakeUpIsExact` except on a single worker.
- Shutdown.ExitDrainsAll: one pool worker without a caller worker; with several, a worker between `take` and the increment of `activeThreadNums_` is invisible to `canStop`.
- DoIo.WaitIsExact: the hook's early returns for unhooked, closed or non-blocking descriptors are not part of it, and `cancelled` is a flag, as in the source, so the error number is not carried.
- Buffer ownership and freeing of nodes, overflow of `size_t` positions, and the operations on a buffer of node size 0, which divide by zero; the floating-point `ceil` of `addCapacity` is integer ceiling division.
- The setter of the byte order; every result holds for either order.
- Floats and doubles, which travel as the bit patterns of fixed-width integers; `writeStringWithoutLength`; `toHexString`.
- `writeToFile` and `readFromFile`: file I/O; the chunk length at easy/net/Buffer.cc:543 is right only at a node boundary.
- Overflow of 64-bit times and of the multiplication of milliseconds.
- Context switching, stacks, real epoll, timerfd, pipes and threads: only their abstract effects are present; the wake-up pipe and the timerfd entries of the epoll set are not.
- Wake-up liveness: a task scheduled between `take` returning nothing and the increment of `idleThreadNums_` sends no wake-up.
- Concurrent growth of `channels_`, whose size is not checked again under the write lock; negative descriptors.
- The caller worker of a scheduler, and `Fiber::resume` and `Fiber::yield` outside a scheduler.
- Form 3 of RFC 4291 (a dotted IPv4 tail), which `insert` never prints, is not read by the reader.
- `networdAddress`, address comparison, DNS, interface lookup, sockets, SSL, `TcpServer`, log appenders, configuration, environment, files and `FdManager`.
