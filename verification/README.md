# Verified model of the disk wiper and its run-time library

A Dafny model of the parts of this repository that hold real algorithms: the call-graph profiler of
the i386 monitor, the GDB remote stub of the M32R, 64-bit division, the clock, disk geometry, the
wipe of a drive over the BIOS, the file-descriptor table of the AArch64 system calls, and the number
printers of the screen. Each part that updates state in place is a class or an array method proved
against a specification function; what the part is for is then proved about that function, over every
input or every run.

`dafny verify dfyconfig.toml` checks everything.

## How the model is laid out

| files | what they hold |
|---|---|
| `ArcLog.dfy`, `ArcTable.dfy` | a log of recorded calls and its readings (most recent first, first seen, counts, dump); the arrays `froms` and `tos` that represent it |
| `HexCodec.dfy`, `Packet.dfy`, `Crc32.dfy` | memory as hex digits and as escaped binary; packets, with the receiver as an automaton; the table-driven CRC |
| `M32R.dfy`, `BranchEmulator.dfy`, `Stepping.dfy`, `Stub.dfy` | an independent description of the processor's branches; the stub's emulator; single steps and sessions as a state machine; the stub itself |
| `Division.dfy`, `Calendar.dfy` | shift-and-subtract division; the clock against POSIX seconds |
| `Geometry.dfy`, `Bios.dfy`, `Wipe.dfy`, `WipeCoverage.dfy` | sector addresses; disk requests with arbitrary BIOS answers; the wipe and the plan it follows; what the plan amounts to |
| `Descriptors.dfy` | which host handle each file descriptor holds, over every run |
| `Numerals.dfy`, `Display.dfy`, `HexDisplay.dfy` | numerals, the growing-and-shrinking-divisor printer, the hexadecimal printer |

What the surroundings decide is a parameter, and the theorems hold for all its values: the BIOS's
answers and the random bytes are functions of the number of the request or draw, the host's answers to
system calls and the characters from the debugger are arguments, and whether memory could be allocated
or a drive carries the skip label is a Boolean. Addresses, registers and counters have their widths
written out as remainders.

## What the code does that one might not expect

Each of these is a theorem about the code as it is.

- Single-stepping cannot undo a halfword planted at address 0, which it takes for "nothing planted"
  (`Stepping.FinishUndoesPrepare` has the exact condition).
- `JL R14` jumps to its own return address, because the link is written before the jump register is
  read (`BranchEmulator.EmulationIsExecution`).
- A continue is a single step exactly if a step was commanded since the last trap, as after a step over
  a branch (`Stepping.ContinueStepsIff`).
- A packet whose third byte is a colon loses its first three bytes (`Packet.ReceivedText`).
- A packet cut off behind its end character takes the next packet with it, and may even be acknowledged
  in its place (`Packet.FrameArrives` has the exact condition, `Packet.RepeatArrives` the recovery).
- A wipe covers a drive only if it has fewer than 2^55 sectors (`WipeCoverage.CoveredIffSmall`).
- FAST mode on a drive without the BIOS extensions writes whatever the fresh buffer held
  (`WipeCoverage.FastHistory`), and OCD mode writes random bytes in all four passes, not the four
  patterns that the comment in `option.h:29` lists (`WipeCoverage.OcdHistory`).
- Forcing CHS on a drive with the extensions still addresses it by block number; it only changes how
  many sectors are covered (`WipeCoverage.ForcedChunks`).
- A drive with 256 heads has sectors that the parameter check rejects (`Geometry.HeadTooMany`), and a
  wipe stops at the first chunk that starts there (`WipeCoverage.TrackChunks`).
- Without the extensions, requests of 16 sectors run past the end of their track unless its length is a
  multiple of 16 (`WipeCoverage.TracksDivide`); what is then written is up to the BIOS.
- A failing write never stops a wipe, and the result of the whole wipe is what its last request came to
  (`Wipe.Wiper.WipeDisk`), so that early failures go unseen (`WipeCoverage.EarlyFailureUnseen`).
- A checked write by triple that moved too few sectors is not verified, and its result is the BIOS's code
  although the call succeeded (`Bios.Firmware.TracksRw`).
- An exclusive creation whose probe can be neither queried nor closed loses the probe's handle
  (`Descriptors.ExclusiveIsWhole`).
- A relative seek that overflows is reported as invalid, or accepted, but never as an overflow
  (`Descriptors.OverflowLooksInvalid`), and start-up gives all three console flags to descriptor 0
  (`Descriptors.Files.InitialiseMonitorHandles`).
- The left-aligned decimal printer shows a zero in a one-column field as a blank
  (`Display.PrintedReadsBack`).

## Model

| member | source | states |
|---|---|---|
| ArcTable.Profiler.MCount | newlib/libgloss/i386/cygmon-gmon.c:202-337 | one call moves the arrays, the on/off flag and the log exactly as the abstract step `Record` does on the first or any later call: one more entry for one arc, or nothing, or the end of recording; while recording is off the arrays stay untouched |
| ArcTable.Profiler.CountArc | newlib/libgloss/i386/cygmon-gmon.c:249-325 | a call from a bucket is appended to the log if its arc is known or a node is left, and otherwise recording stops with the log as it was; the arrays go on representing the log |
| ArcTable.Profiler.Search | newlib/libgloss/i386/cygmon-gmon.c:278-325 | the walk down a chain finds the node of the callee, with its predecessor, or shows that the arc was never recorded |
| ArcTable.Profiler.Allocate | newlib/libgloss/i386/cygmon-gmon.c:252-305 | a first call takes the next node of the pool and puts it at the head of its chain, or stops recording when the pool is used up |
| ArcTable.Profiler.CountUp | newlib/libgloss/i386/cygmon-gmon.c:257-261 | the allocation counter in node 0 goes up by one without wrapping in its 16 bits, and no chain notices |
| ArcTable.Profiler.MoveToFront | newlib/libgloss/i386/cygmon-gmon.c:309-324 | a node found below the head is counted, unlinked and put at the head, and the arrays represent the log with that call added |
| ArcTable.Profiler.CountHead | newlib/libgloss/i386/cygmon-gmon.c:269-277 | a callee found at the head is counted and nothing else changes |
| ArcTable.ChainsPartitionPool | newlib/libgloss/i386/cygmon-gmon.c:202-337 | in every represented state the chains are acyclic and disjoint, hold every allocated node exactly once, and never the same callee twice |
| ArcTable.HitBelowHead | newlib/libgloss/i386/cygmon-gmon.c:309-324 | unlinking a node and pushing it at the head turns a representation of the log into one of the log with the call added, order and counts included |
| ArcTable.NewAtHead | newlib/libgloss/i386/cygmon-gmon.c:252-305 | filling the next node and pushing it does the same for a first call |
| ArcTable.ReadingsAfterHit | newlib/libgloss/i386/cygmon-gmon.c:311-324 | a repeated call moves its callee to the front of its bucket, adds one to its multiplicity and no new arc |
| ArcTable.OnlyTextSizeOverruns | newlib/libgloss/i386/cygmon-gmon.c:244-250 | of the offsets that the guard admits only the text size itself selects a slot behind `froms` |
| ArcTable.PoolLimit | newlib/libgloss/i386/cygmon-gmon.c:128-139 | the number of nodes lies between the two bounds, whatever the text size, even if the product wraps |
| ArcTable.Profiler.MonStartup | newlib/libgloss/i386/cygmon-gmon.c:92-166 | start-up yields the empty profile, recording exactly when all three allocations succeed and the text is not empty |
| ArcTable.Profiler.MCleanup | newlib/libgloss/i386/cygmon-gmon.c:168-198 | stops recording and writes out exactly the dump of the log, bucket by bucket and chain by chain |
| ArcTable.Profiler.DumpChain | newlib/libgloss/i386/cygmon-gmon.c:188-195 | the inner loop writes one record for each node of a chain, with the bucket base and the count |
| ArcLog.RecentIsByLastCall | newlib/libgloss/i386/cygmon-gmon.c:309-324 | in the order that move-to-front keeps, an earlier callee was called more recently |
| ArcLog.RunIsComplete | newlib/libgloss/i386/cygmon-gmon.c:257-261 | over every run recording is still on exactly when the distinct arcs met so far fit the pool, and then the log has every call from the text |
| ArcLog.OverflowIsFinal | newlib/libgloss/i386/cygmon-gmon.c:332-336 | after the pool overflowed no call changes anything |
| ArcLog.DumpIsExact | newlib/libgloss/i386/cygmon-gmon.c:168-198 | the dump has one record per recorded arc and no others, no two with the same caller and callee, and its counts add up to the number of recorded calls |
| ArcLog.CountBounded | newlib/libgloss/i386/cygmon-gmon.c:193 | no count exceeds the number of recorded calls |
| Crc32.CrcTable.Crc | newlib/libgloss/m32r/m32r-stub.c:548-571 | the table-driven loop computes the bitwise CRC with polynomial 0x04c11db7, most significant bit first, for every buffer and seed, building the table at its first use |
| Crc32.CrcTable.BuildTable | newlib/libgloss/m32r/m32r-stub.c:551-563 | the lazy build fills all 256 entries with eight shifts of their index, after which the table counts as built |
| Crc32.TableStep | newlib/libgloss/m32r/m32r-stub.c:565-569 | one table look-up feeds the eight bits of a byte |
| Crc32.CrcOfConcat | newlib/libgloss/m32r/m32r-stub.c:548-571 | the CRC of a concatenation is that of the second part seeded with that of the first |
| Crc32.EntryOneIsNotZero | newlib/libgloss/m32r/m32r-stub.c:551 | entry 1 of a built table is not zero, so the test for a built table is right |
| Crc32.ShiftIsLinear | newlib/libgloss/m32r/m32r-stub.c:559-561 | one shift with feedback distributes over exclusive or |
| HexCodec.Mem2Hex | newlib/libgloss/m32r/m32r-stub.c:758-778 | writes the hex digits of the bytes before the first fault, and a terminating zero, and nothing else |
| HexCodec.Hex2Mem | newlib/libgloss/m32r/m32r-stub.c:783-802 | stores the bytes that the digits stand for, up to the first fault, and nothing else |
| HexCodec.DecodedEncoded | newlib/libgloss/m32r/m32r-stub.c:758-802 | every byte sequence comes back from its hex digits |
| HexCodec.Bin2Mem | newlib/libgloss/m32r/m32r-stub.c:804-846 | stores what the escaped bytes stand for up to the first fault, consumes exactly their text and that of the faulting byte, and leaves everything else alone |
| HexCodec.UnescapeEscaped | newlib/libgloss/m32r/m32r-stub.c:804-846 | escaping is undone for every byte sequence, whatever follows, and exactly the escaped bytes are consumed |
| HexCodec.EscapedIsFramable | newlib/libgloss/m32r/m32r-stub.c:804-846 | escaped bytes contain no start or end character |
| Packet.GetPacket | newlib/libgloss/m32r/m32r-stub.c:587-659 | the two nested loops over the receive buffer are the receiving automaton run on the input: same buffer, same replies, same place in the input |
| Packet.PutPacket | newlib/libgloss/m32r/m32r-stub.c:661-688 | sends the frame of the text up to its zero once more than there are answers before the first acknowledgement |
| Packet.SendFrame | newlib/libgloss/m32r/m32r-stub.c:671-685 | one turn sends the start character, the text, the end character and the two checksum digits |
| Packet.FrameArrives | newlib/libgloss/m32r/m32r-stub.c:587-659 | behind any bytes at all that leave no complete packet, a framed packet is received whole and acknowledged if and only if the receiver is not just then waiting for checksum digits |
| Packet.MisreadFrame | newlib/libgloss/m32r/m32r-stub.c:625-650 | if it is waiting, and the beginning of the packet happens to be the right digits, the packet cut off before is acknowledged instead |
| Packet.RepeatArrives | newlib/libgloss/m32r/m32r-stub.c:587-688 | otherwise the packet is refused once and is received when the sender repeats it |
| Packet.CutBehindEnd | newlib/libgloss/m32r/m32r-stub.c:625-650 | a packet of one byte cut behind its end character loses the next packet, and is acknowledged in its place for exactly one value of that byte |
| Packet.ColonIsLost | newlib/libgloss/m32r/m32r-stub.c:641-652 | a packet ab:c is read as c |
| Packet.Resynchronises | newlib/libgloss/m32r/m32r-stub.c:587-688 | after any noise, packets cut before their end character, wrong checksums and overlong packets a framed packet is received whole; each wrong checksum is refused once and the packet acknowledged |
| Packet.RoundTrip | newlib/libgloss/m32r/m32r-stub.c:587-688 | behind any bytes that leave the receiver ready, the text found is the text sent if and only if the byte in its third place is not a colon, or the text is under two bytes and is what a stale colon happens to be followed by |
| Packet.ReceivedText | newlib/libgloss/m32r/m32r-stub.c:641-652 | what a program finds in the buffer behind a received packet, for texts of every length: the text, or without its first three bytes if the third is a colon, or what stood there before |
| BranchEmulator.ReadsAgree | newlib/libgloss/m32r/m32r-stub.c:968-1020 | the byte-by-byte tests name exactly the instruction that a decoder by whole halfwords finds, offsets included |
| BranchEmulator.BranchIsDecoded | newlib/libgloss/m32r/m32r-stub.c:968-1020 | the branch code is 0 exactly for what is no branch, and the sizes agree |
| BranchEmulator.ConditionAgrees | newlib/libgloss/m32r/m32r-stub.c:1023-1078 | the emulator branches exactly when the processor would |
| BranchEmulator.DestinationAgrees | newlib/libgloss/m32r/m32r-stub.c:1081-1110 | the destination is the processor's, except through the link register just written |
| BranchEmulator.EmulationIsExecution | newlib/libgloss/m32r/m32r-stub.c:1176-1184 | emulating a branch leaves PC and registers as executing it would, if and only if it is not JL R14 with another target than its return address |
| BranchEmulator.JumpThroughLink | newlib/libgloss/m32r/m32r-stub.c:1176-1184 | JL R14 at address 4 goes to 8 instead of the old R14 |
| BranchEmulator.SecondSlotBranchAligns | newlib/libgloss/m32r/m32r-stub.c:1081-1110 | after a branch in the second slot the PC is at the start of a word |
| Stepping.FinishUndoesPrepare | newlib/libgloss/m32r/m32r-stub.c:1162-1246 | finishing a step restores the memory without the stub's doing, whatever the target wrote elsewhere, if and only if no planted halfword at address 0 differs from the old one |
| Stepping.NoopIsLeft | newlib/libgloss/m32r/m32r-stub.c:1231-1232 | stepping the instruction at address 2 leaves the no-op at address 0 |
| Stepping.EventIsTransparent | newlib/libgloss/m32r/m32r-stub.c:209-541 | every run of the target, trap and command keeps the machine in step with one in which nothing is ever planted |
| Stepping.StoppedMemoryIsTrue | newlib/libgloss/m32r/m32r-stub.c:217-501 | over every session, whenever the stub is stopped memory holds no planted halfword and the stepping context is clear |
| Stepping.StatusIsRestored | newlib/libgloss/m32r/m32r-stub.c:1315-1323 | the three fields of the status word come from their backups; the backups and everything above are kept |
| Stepping.StoppedStacksAgree | newlib/libgloss/m32r/m32r-stub.c:400-444 | over every session in which all registers are set at once only to values that agree, R15 is the stack pointer that the status word selects whenever the stub is stopped |
| Stepping.CommandIsCoherent | newlib/libgloss/m32r/m32r-stub.c:400-444 | of all commands only setting all registers can break this, and does exactly if the registers set disagree |
| Stepping.StepCycle | newlib/libgloss/m32r/m32r-stub.c:1162-1246 | one whole step or continue: the target's own writes stay, everything planted is gone, the context is clear, and the debugger hears of it exactly if the step was not made to continue and was no console write |
| Stepping.RegisterSetMeans | newlib/libgloss/m32r/m32r-stub.c:400-437 | setting one register sets it, restores the agreement of the stack pointers, and changes nothing else |
| Stepping.CleanedMeans | newlib/libgloss/m32r/m32r-stub.c:1315-1338 | after a trap PC and condition are as before it, and every other register but the selected stack pointer and the status word is as stashed |
| Stepping.ServingIsRunning | newlib/libgloss/m32r/m32r-stub.c:317-541 | the command loop is a run of the machine on the commands it took, all of them while stopped, up to the resumption |
| Stepping.ResumesAtWordStart | newlib/libgloss/m32r/m32r-stub.c:491-499 | the target is never resumed in a second slot without a no-op before it and a trap behind it |
| Stepping.ContinueStepsIff | newlib/libgloss/m32r/m32r-stub.c:315-499 | a continue is a single step that reports if and only if a step was commanded since the trap that stopped the target, whatever was commanded in between |
| Stepping.FlagMeansStepped | newlib/libgloss/m32r/m32r-stub.c:315-499 | while the stub is served and stays stopped, its flag is set exactly if it was before or a step was commanded |
| Stepping.ContinueAfterBranch | newlib/libgloss/m32r/m32r-stub.c:445-499 | for instance behind a step over a branch at address 4 the continue plants a trap at 10, and without that step it would not |
| Stub.DebugStub.PrepareToStep | newlib/libgloss/m32r/m32r-stub.c:1163-1210 | plants or emulates exactly as the state machine says, and asks to resume exactly for what is no branch |
| Stub.DebugStub.FinishFromStep | newlib/libgloss/m32r/m32r-stub.c:1224-1246 | restores as the state machine says, and tells the debugger exactly if the step was not made in order to continue |
| Stub.DebugStub.CleanupStash | newlib/libgloss/m32r/m32r-stub.c:1315-1338 | the registers after a trap are those of the state machine |
| Stub.DebugStub.SetRegister | newlib/libgloss/m32r/m32r-stub.c:400-437 | sets one register and the stack pointer that goes with it |
| Stub.DebugStub.Resume | newlib/libgloss/m32r/m32r-stub.c:445-501 | the step and continue commands, with the loop's own flag |
| Stub.DebugStub.ProcessException | newlib/libgloss/m32r/m32r-stub.c:209-541 | from a trap to the resumption the registers, memory and context end as the state machine says for that trap and those commands |
| Division.UDivModDi4 | lib.c:55-83 | for all 64-bit numbers the two loops give the exact quotient and remainder, and a zero denominator traps |
| Division.UDivDi3 | lib.c:86-89 | agrees with division |
| Division.UModDi3 | lib.c:91-96 | agrees with the remainder |
| Division.SubtractStep | lib.c:72-78 | no subtraction step wraps the quotient |
| Calendar.NextDayAddsOne | timer.c:1109-1120 | one calendar day later the day formula is one more, across every month, year and leap year |
| Calendar.DayNumberCounts | timer.c:1109-1120 | after any number of days since 1970-01-01 the formula gives that number |
| Calendar.EveryDateIsCounted | timer.c:1109-1120 | every date from 1970 on is the one reached after as many days as the formula says |
| Calendar.DayNumberIsPosix | timer.c:1103-1121 | the formula is the one of section 4.16 of POSIX.1-2017 Base Definitions |
| Calendar.MktimeIsPosix | timer.c:1103-1121 | in 32-bit arithmetic it is the POSIX number modulo 2^32, for every year |
| Calendar.MktimeIsExact | timer.c:1103-1121 | from 1970 to 2105 nothing is cut off |
| Calendar.BcdRoundTrip | timer.c:118-121 | decoding restores every two-digit number |
| Calendar.RtcTime.Read | timer.c:123-175 | the fields end as the decoded and windowed registers |
| Calendar.ShownIsDecoded | timer.c:145-174 | what a 24-hour clock shows, in BCD or binary, decodes to the date and time, for 1970 to 2069 |
| Calendar.ClockIsPosix | timer.c:1144-1153 | from the clock's face to POSIX seconds below 2^32, for every moment of 1970 to 2069 |
| Calendar.Normalise | timer.c:1155-1172 | whole seconds move out of the microseconds, exactly |
| Geometry.LbaRoundTrip | disk.c:551-575 | a block below the capacity translates to a valid triple, and back to itself if and only if it is addressable and its head is not 255 |
| Geometry.LbaOrder | disk.c:551-564 | translation is strictly monotone from block numbers to triples in lexicographic order |
| Geometry.ChsRoundTrip | disk.c:551-575 | every valid triple is the translation of one block below the capacity, and translates back exactly when that block is addressable |
| Geometry.FittingLba | disk.c:254-264 | with at most 255 heads every block makes the round trip |
| Geometry.FittingChs | disk.c:254-264 | and every valid triple does |
| Geometry.HeadTooMany | disk.c:254-264 | with 256 heads there is a sector that translates but is rejected |
| Geometry.PackRoundTrip | disk.c:70-79 | packing and unpacking is the identity for cylinders 0 to 1023 and sectors 0 to 63 |
| Geometry.UnpackRoundTrip | disk.c:70-79 | unpacking and packing is the identity for every register value |
| Geometry.FieldsAdd | disk.c:70-79 | the bitwise or of the packed fields is their sum |
| Bios.Firmware.TracksRw | disk.c:308-372 | rejects exactly the requests that fail a check, before any call; otherwise the BIOS sees the triple and the sectors asked for, then a verification exactly after a checked write that succeeded in full; the result is the code of the last request if that failed, or of a checked write too short to be verified, and else 0; the size written back and the bytes read are those the BIOS counted |
| Bios.Firmware.VerifyTrack | disk.c:266-306 | the same for a verification, with the code that the BIOS answers |
| Bios.Firmware.BlocksRw | disk.c:396-443 | the same by block number |
| Bios.Firmware.SetTrack | disk.c:350-356 | the packed registers mean the triple they were set from |
| Wipe.Wiper.WipeDisk | dwipe.c:405-483 | for all BIOS answers: nothing is asked of a skipped drive or without memory; otherwise the transfers are exactly the plan's chunks, up to the first rejected one, and after all of them the boot record; the result is -1 exactly for a rejection or an empty drive, and else what the very last request came to; the bytes counted come to the whole |
| WipeCoverage.EarlyFailureUnseen | dwipe.c:441-465 | a wipe whose first write fails can still return 0 |
| Wipe.Wiper.WipeSectors | dwipe.c:293-388 | one chunk is asked for once in each pass with that pass's data, or read once in test mode, or rejected in every pass |
| Wipe.Wiper.FillForPass | dwipe.c:311-331 | what the buffer holds in each pass |
| Wipe.Wiper.FillRandom | dwipe.c:284-291 | the buffer takes the next random bytes in order |
| Wipe.Progress.Update | dwipe.c:218-221 | the byte count never exceeds its total and loses nothing below it |
| Wipe.SizesAreSmall | dwipe.c:436-459 | the chunk count and the 32-bit remainder of a 64-bit sector count, although the byte count wraps |
| Wipe.LeftBytes | dwipe.c:441-464 | the last progress update completes the byte count |
| WipeCoverage.ChunksTile | dwipe.c:441-459 | chunks follow each other without gap or overlap up to the sector count modulo 2^55; the last is empty exactly when the count wraps and is a multiple of 16 |
| WipeCoverage.PlanInOrder | dwipe.c:322-342 | each chunk is asked for exactly 1, 3 or 4 times in a row, in order of chunks and passes |
| WipeCoverage.PlanWrites | dwipe.c:293-343 | each sector reached is written once in each pass with its part of the buffer, and no other sector is |
| WipeCoverage.DodHistory | dwipe.c:322-342 | in DOD mode every sector is written 00, FF, 00 and ends zero |
| WipeCoverage.FastHistory | dwipe.c:311-313 | in FAST mode every sector is written zero once by block number, and by triple with what the buffer held |
| WipeCoverage.OcdHistory | dwipe.c:323-333 | in OCD mode every sector is written four blocks of random bytes of its own |
| WipeCoverage.CoveredIffSmall | dwipe.c:436-459 | the whole drive is written if and only if it has fewer than 2^55 sectors |
| WipeCoverage.NothingCovered | dwipe.c:436-459 | a drive of exactly 2^55 sectors is not written at all |
| WipeCoverage.TestModeWritesNothing | dwipe.c:300-308 | in test mode no request is a write |
| WipeCoverage.EndsZero | dwipe.c:405-482 | whatever the BIOS answers, a drive with the extensions and fewer than 2^55 sectors that obeys the requests of a DOD or FAST wipe ends all zero, but for the boot record in its first sector exactly if one is wanted and accepted |
| WipeCoverage.ExtendedNeverRejects | disk.c:396-416 | on a drive with the extensions, not forced to CHS, no request fails a check |
| WipeCoverage.ForcedChunks | dwipe.c:430-435 | forced to CHS, such a drive is still addressed by block, and a chunk is rejected exactly beyond its end, or never if it reports no blocks |
| WipeCoverage.ForcedBeyondEnd | dwipe.c:430-435 | for instance the second chunk of a drive of 16 blocks that reports a track of 63 sectors |
| WipeCoverage.TrackChunks | dwipe.c:345-386 | without the extensions a chunk is rejected exactly if it starts at head 255 or beyond the addressable sectors, and never with at most 255 heads |
| WipeCoverage.TracksCovered | dwipe.c:345-386 | such a drive with at most 255 heads is accepted and asked to be written everywhere, where a request that runs past its track goes on at the next head |
| WipeCoverage.TracksDivide | dwipe.c:441-449 | every request by triple stays on its track if and only if the sectors of a track are a multiple of 16 or there is only one track |
| Descriptors.RunIsWhole | newlib/libgloss/aarch64/syscalls.c:135-515 | over every run with fresh handles each live handle is in exactly one slot, or in slots 1 and 2, and each taken slot has a live handle |
| Descriptors.SharedClosesSecond | newlib/libgloss/aarch64/syscalls.c:496-502 | a handle shared by standard output and error is closed exactly with the second of them |
| Descriptors.ProbeIsUndone | newlib/libgloss/aarch64/syscalls.c:602-614 | a probe that is closed again leaves the table as it was |
| Descriptors.ExclusiveIsWhole | newlib/libgloss/aarch64/syscalls.c:417-460 | an exclusive creation loses a handle if and only if the probe could be neither queried nor closed and the creation succeeded |
| Descriptors.ProbeLost | newlib/libgloss/aarch64/syscalls.c:417-460 | for instance in an empty table: the probe's handle stays live without a slot |
| Descriptors.FreedSlot | newlib/libgloss/aarch64/syscalls.c:504-512 | freeing a slot loses its handle exactly when no other slot has it |
| Descriptors.OverflowLooksInvalid | newlib/libgloss/aarch64/syscalls.c:308-321 | a relative seek never reports an overflow; it is right exactly when the sum is a position |
| Descriptors.InitialIsWhole | newlib/libgloss/aarch64/syscalls.c:169-217 | the table after start-up is whole if and only if the host gave standard input a handle of its own; the error stream may fall back to the output |
| Descriptors.Files.InitialiseMonitorHandles | newlib/libgloss/aarch64/syscalls.c:169-217 | start-up makes that table from any three handles, opens the console in three modes, and writes all flags to slot 0 |
| Descriptors.Files.NewSlot | newlib/libgloss/aarch64/syscalls.c:151-167 | finds the lowest free slot |
| Descriptors.Files.FindSlot | newlib/libgloss/aarch64/syscalls.c:135-149 | a descriptor is valid exactly if its slot is taken |
| Descriptors.Files.Close | newlib/libgloss/aarch64/syscalls.c:486-515 | the table moves as the close step says, only live handles are given to the host, and the result tells which case it was |
| Descriptors.Files.SwiOpen | newlib/libgloss/aarch64/syscalls.c:396-469 | the table moves as the open step says; missing name, full table and existing file have their errors and nothing else changes; the new slot is the lowest free one and the host is asked in the right modes |
| Descriptors.Files.Stat | newlib/libgloss/aarch64/syscalls.c:601-614 | the probe opens, queries and closes, and tells whether the file exists; with a full table it fails |
| Descriptors.Files.SwiStat | newlib/libgloss/aarch64/syscalls.c:548-594 | a descriptor can be queried if it is a terminal or its length is known, and then has the attributes of that |
| Descriptors.WritableIfOpenedSo | newlib/libgloss/aarch64/syscalls.c:586-590 | a descriptor is reported writable exactly if it was opened for writing |
| Descriptors.BlocksHold | newlib/libgloss/aarch64/syscalls.c:578-583 | the blocks reported hold the file with less than one to spare, exactly if rounding its length up does not overflow |
| Descriptors.Files.Read | newlib/libgloss/aarch64/syscalls.c:259-284 | the position advances by what was read, and by nothing on failure |
| Descriptors.Files.Write | newlib/libgloss/aarch64/syscalls.c:368-394 | the position advances by what was written, and by nothing on failure |
| Descriptors.Files.SwiLseek | newlib/libgloss/aarch64/syscalls.c:286-345 | the position becomes the target of the seek exactly when every step succeeds |
| Display.Screen.DPrint | display.c:203-255 | refuses exactly numbers over nine digits and fields over nine columns; otherwise the text is the aligned numeral, although the divisor moves both ways |
| Display.Screen.LeftLoop | display.c:214-228 | the loop ends with the whole numeral printed |
| Display.Screen.RightLoop | display.c:229-252 | the loop ends with the numeral and the padding printed |
| Display.PrintedReadsBack | display.c:203-255 | what either mode prints reads back as the value in the width asked for, if and only if it is not the left-aligned mode without columns or with a zero in one column |
| Display.ZeroIsBlank | display.c:229-252 | 0 in one column is a blank |
| HexDisplay.HPrint2 | display.c:268-296 | prints the last digits asked for, or all significant ones if there are more |
| HexDisplay.HexReadsBack | display.c:268-296 | no significant digit is dropped |
| Numerals.NumeralReadsBack | display.c:203-296 | a numeral reads back as its number and has no leading zero |

## Left out

- ArcTable.Profiler.MCount: not for a call whose offset equals the text size, which the guard lets through although its slot lies behind the table; the caller must avoid it (`ArcTable.OnlyTextSizeOverruns` shows that it is the only one).
- ArcTable.Profiler.MonControl: the model allows turning recording on once, at start-up; turning it on again after the pool overflowed would reset the state that the table relies on. The `profil` system call and the histogram are not modelled.
- ArcTable.Profiler.MCleanup: requires that the tables were allocated, which the source does not test; opening and writing the output file is not modelled, and counts are unbounded where the source has a signed long.
- Packet.PutPacket: the debugger's acknowledgements are a finite list; the loop without end is its prefixes.
- HexCodec.Mem2Hex: a memory fault is the number of safe bytes before it; `mem_safe` itself, which returns nothing for addresses from 0xff800000 on, is not modelled.
- Stub.DebugStub.ProcessException: commands arrive parsed; `hexToInt`, the texts of replies and of console output, and detaching are not modelled.
- Stub.DebugStub.LoadHalf: a halfword access at an odd address is taken to be the two bytes there; the processor would trap.
- BranchEmulator.EmulationIsExecution: requires an even PC, and describes RTE by its jump alone; what RTE restores in the status word is not modelled, as in the source.
- Crc32.CrcTable.Crc: the buffer is memory that does not fault.
- Calendar.RtcTime.Read: waiting for the clock to be stable and the day of the week are not modelled, nor is the 12-hour format, which the source does not handle.
- Wipe.Wiper.WipeDisk: the label check is its answer alone; it only reads. The boot record's bytes are an argument, because the file they come from is generated.
- WipeCoverage.TracksCovered: a request that runs past the end of its track is taken to go on with the following sectors, as a BIOS would have to; `WipeCoverage.TracksDivide` says when there is none.
- Descriptors.Files.SwiStat: the read permissions, which are always granted, and the write permissions count as one; attributes are stated for a successful query only.
- Display.Screen.DPrint: the text, not its place on the screen.
- The progress bar's width, speed and remaining time, `snprintf` formatting, and all screen drawing.
- Time-stamp counter, CPU identification, serial port, interrupts and port input and output.
- Command line and options parsing.
- The other stubs of libgloss, which are weaker copies or one-line wrappers.
