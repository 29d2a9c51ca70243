# TZmCFI core logic in Dafny

This project models the sequential logic of TZmCFI, a control-flow integrity
framework for Armv8-M TrustZone. It covers the Secure monitor and the example
firmware in C++, the benchmark runner and the assembler-patching tools in
Rust, and the two import-library generators. It proves what that code
promises.

Each module follows one component of the source:

- **Benchmark runner** (`examples/tools/runbench`):
  - `BuildOptions` and `Tuples`: the build-option matrix, its validation, its identifier and its `zig build` flags.
  - `App`: the per-benchmark filter, `retry_on_fail`, `ignore_not_found` and the per-configuration step sequence with its metadata.
  - `Capture`: the incremental marker scan over the target's output.
  - `Targets`: serial port choice and the QEMU and LPC55S69 command lines.
- **Secure monitor** (`SecureMonitor`):
  - `LinearAllocator`: the bump allocator.
  - `ShadowStack`: the vector-table check, `Contains`, the exception-chain walk, and the shadow exception stack push, assert and create.
  - `Threads`: the thread table.
- **Example firmware**:
  - `Base64`: the RFC 4648 section 4 encoder.
  - `TzMpc`: the memory protection controller driver.
  - `Decimal` and `Print`: decimal printing.
  - `LatencyRecords`: the timer record buffer of the latency benchmark.
  - `LibcStub`: `_sbrk_r` and `_write`.
- **Assembler patcher**:
  - `ArmInst`: register sets and condition codes.
  - `ArmFormat`: the instruction printer.
  - `ArmParse`: the instruction and register parsers.
  - `GasDirectives` and `GasArm`: the directive tables.
  - `GasLines`: the GNU assembler line reader, including comment stripping.
  - `Table`: map lookups shared by the tables.
- **Import-library tools**:
  - `ImportLib`: mkimplib and MakeImplib.
- **Support**:
  - `Wrappers`: `Option` and `Result`.
  - `Words`: 32-bit words as integers, with explicit wrap-around.
  - `Strings`: prefixes, ASCII case folding and joining.

Modelling conventions:

- 32-bit machine words are integers in `[0, 2^32)`. Every wrapping addition, subtraction and truncation is written out.
- Everything the programs do to the outside world is a parameter of the model: reading the board, running subprocesses, the file system, the clock, the serial ports and ELF parsing.
  - A subprocess or file operation is a function from the request to its outcome.
  - An output stream is a list of events.
  - An ELF file is its symbol list.
  - A hash map's iteration order is an explicit listing of its keys.
- A `panic!` or `Panic()` in the source is an error or `None` result.

## Model

| member | source | states |
|---|---|---|
| LinearAllocator.Reset | SecureMonitor/LinearAllocator.hpp:46 | resetting empties the pool: the result is the freshly constructed allocator with `top` 0 |
| LinearAllocator.AllocateBytes | SecureMonitor/LinearAllocator.cpp:6-30 | every failure leaves `top` unchanged; a success returns the requested size at an offset `top + pad` at or above the old `top`, ends inside the pool, and moves `top` to the end of the region |
| LinearAllocator.AlignUpValue | SecureMonitor/LinearAllocator.cpp:9 | for a power-of-two alignment the mask expression is the least multiple of the alignment at or above `top`, or 0 when the addition wraps |
| LinearAllocator.AllocateBytesAligned | SecureMonitor/LinearAllocator.cpp:9-29 | with a power-of-two alignment a successful region's offset is a multiple of the alignment and the padding is below the alignment |
| LinearAllocator.AllocateBytesFirstFit | SecureMonitor/LinearAllocator.cpp:9-24 | if any aligned region of the requested size fits between `top` and the end of the pool, the allocation succeeds, at an offset no higher than that region |
| LinearAllocator.Deallocate | SecureMonitor/LinearAllocator.cpp:32-42 | deallocation succeeds exactly when the region ends at `top` (otherwise the panic message), and then restores `top` to the region's start minus its padding |
| LinearAllocator.AllocateDeallocate | SecureMonitor/LinearAllocator.cpp:26-41 | deallocating the allocation just made gives back exactly the allocator before it |
| LinearAllocator.DeallocateOutOfOrder | SecureMonitor/LinearAllocator.cpp:37-39 | after a second allocation, the first can be freed only when the second was empty and unpadded; otherwise it panics |
| LinearAllocator.DefaultAlignmentNoPad | SecureMonitor/LinearAllocator.hpp:69-71 | with the default alignment 1 there is never padding, the region starts at `top`, and allocation succeeds exactly when `top + size` fits the pool |
| LinearAllocator.Allocate | SecureMonitor/LinearAllocator.hpp:79-86 | `Allocate<T>` fails without changing the allocator or returns the typed pointer equal to the allocation's pointer, of `sizeof(T)` bytes, inside the pool |
| LinearAllocator.AllocateTyped | SecureMonitor/LinearAllocator.hpp:79-86 | a `T` with power-of-two alignment is placed at a multiple of `alignof(T)`, and freeing it restores the allocator |
| Threads.Initial | SecureMonitor/Thread.cpp:15-23 | the boot state has an empty table and next-free index 0, satisfies the table invariant, and uses the empty default shadow stack |
| Threads.Reset | SecureMonitor/Thread.cpp:36-39 | `Reset` succeeds and empties the arena only: the table, the records it points to, the next-free and active indices and the stack in use are unchanged, and the invariant is kept; once a thread exists, its record no longer lies in the allocated part of the arena |
| Threads.CreateThread | SecureMonitor/Thread.cpp:41-71 | with 64 threads it returns out-of-memory and changes nothing; any failure is out-of-memory and changes only the arena; success returns the old next-free index as ID, points exactly that slot at a record written at or above the old arena top, writes no other record, and increments the index; the table invariant and "every record lies in the allocated arena" are kept |
| Threads.CreateKeepsOtherThreads | SecureMonitor/Thread.cpp:47-67 | while every record lies in the allocated arena, creating a thread leaves every other slot's thread exactly as it was |
| Threads.EmptyArenaCreates | SecureMonitor/Thread.cpp:47-67 | from an empty arena creation always succeeds and the record is placed at the start of the arena |
| Threads.ResetAliasesThreadZero | SecureMonitor/Thread.cpp:36-67 | after boot, `TCReset` then `TCCreateThread` gives ID 1 with slot 1 pointing to thread 0's record, and switching to thread 1 keeps thread 0's live shadow stack in use |
| Threads.CreatedThreadStack | SecureMonitor/Thread.cpp:56-66 | a created thread's shadow stack is a 4-aligned 128-byte region inside the arena with limit = start + 128, empty for a running thread and holding the initial frame otherwise |
| Threads.FailedCreateKeepsRecord | SecureMonitor/Thread.cpp:47-61 | when the record fits but the stack does not, creation reports out-of-memory with the table unchanged while the record's 12 bytes stay consumed |
| Threads.MaskId | SecureMonitor/Thread.cpp:79 | masking the ID with 63 is the ID modulo 64 |
| Threads.ActivateThread | SecureMonitor/Thread.cpp:77-102 | it succeeds exactly when the masked slot is filled (otherwise invalid-argument, nothing changed); on success the stack in use is written into the active slot's record, the target slot's record is loaded (the saved stack when both slots point to one record), the target becomes active, and the table, the arena and the next-free index do not change |
| Threads.ActivateRoundTrip | SecureMonitor/Thread.cpp:86-99 | switching to a thread and back restores the stack in use, the records changed only by saving the active thread's current stack |
| Threads.InitializeDefaultThread | SecureMonitor/Thread.cpp:106-120 | it succeeds exactly when creating a running thread with the empty info succeeds with ID 0, and then gives that creation's state |
| Threads.BootDefaultThread | SecureMonitor/Thread.cpp:106-120 | from the boot state the default thread is always created as thread 0 with an empty shadow stack, active, the invariant holds and its record lies in the allocated arena |
| Threads.TCCreateThread | SecureMonitor/Thread.cpp:132-146 | it creates a running thread and writes the new ID to the caller's variable only on success, leaving it as it was otherwise |
| Threads.CreatedThreadIgnoresInitialFrame | SecureMonitor/Thread.cpp:138 | because the thread is created as running, the initial frame is dropped: its shadow stack is empty and any exception-return check against it fails |
| ShadowStack.CheckLayout | SecureMonitor/Exception.cpp:74-79 | the entry-by-entry loop accepts exactly the tables whose entries 2 to size-1 lie `stride` bytes apart from entry 2 |
| ShadowStack.InitializeFromVectorTable | SecureMonitor/Exception.cpp:49-83 | the table is accepted exactly when the signature matches, the masked size is in [2, 256], and for size above 2 entry 2 is odd and the layout holds; size 2 resets only the length; otherwise start is entry 2 minus its Thumb bit and length is (size-2)·stride modulo 2^32 |
| ShadowStack.ClearBitZero | SecureMonitor/Exception.cpp:70-81 | `x & 1` is the low bit and `x & ~1` is `x` with the low bit cleared |
| ShadowStack.ContainsEntries | SecureMonitor/Exception.cpp:85-88 | for an accepted table whose trampolines span less than 2^32 bytes, wherever the first one lies (a table that wraps past address 0 included), `Contains(pc)` holds exactly when pc is one of entries 2.. with the Thumb bit cleared; for a two-entry table it holds for no pc |
| ShadowStack.Accepted | SecureMonitor/Exception.cpp:64-82 | an accepted table of size 2 has length 0; a larger one has an odd entry 2, the even layout, start = entry 2 - 1 and length (size-2)·stride |
| ShadowStack.ContainsIffEntry | SecureMonitor/Exception.cpp:85-88 | the wrapping distance test accepts a pc exactly when it is the address of some trampoline |
| ShadowStack.EntryContained | SecureMonitor/Exception.cpp:85-88 | every trampoline's address passes the distance test |
| ShadowStack.ContainedEntry | SecureMonitor/Exception.cpp:85-88 | every pc that passes the distance test is some trampoline's address, found by dividing the distance by the stride |
| ShadowStack.QuotientBelow | SecureMonitor/Exception.cpp:85-88 | a multiple of the stride below m strides is k strides for some k below m |
| ShadowStack.SubCancel | SecureMonitor/Exception.cpp:85-88 | subtracting the same base from two words, modulo 2^32, gives equal results only for equal words |
| ShadowStack.EntryDistance | SecureMonitor/Exception.cpp:76-87 | the i-th trampoline lies (i-2)·stride bytes past the first, a multiple of the stride below the table's length |
| ShadowStack.AsFrame | SecureMonitor/Exception.cpp:121-128 | the recorded frame carries the iterator's EXC_RETURN and the address of the frame on the selected stack |
| ShadowStack.MoveNext | SecureMonitor/Exception.cpp:136-166 | the walk ends exactly in thread mode or at a frame whose saved PC is not a trampoline; otherwise the next EXC_RETURN is the saved LR, the stack holding the frame is popped past it (32 bytes if FTYPE is set, else 104) and the other stack is untouched, so a next frame on the same stack starts right after the current one and one on the other stack starts at that stack's pointer |
| ShadowStack.Chain | SecureMonitor/Exception.cpp:183-188 | the frames recorded for an empty shadow stack start with the current frame, and have a second frame, the next one of the walk, exactly when `MoveNext` continues |
| ShadowStack.ChainFramesAdjacent | SecureMonitor/Exception.cpp:136-188 | consecutive frames of a recorded chain that sit on the same stack are adjacent: the outer one starts where the inner one ends |
| ShadowStack.ChainUntil | SecureMonitor/Exception.cpp:189-200 | the frames recorded for a non-empty shadow stack are empty exactly when the current frame is the recorded top, start with the current frame otherwise, follow the walk, and never include the recorded top's frame |
| ShadowStack.Reverse | SecureMonitor/Exception.cpp:202 | `std::reverse`: the same length with the elements in the opposite order |
| ShadowStack.Push | SecureMonitor/Exception.cpp:176-205 | pushing keeps the region and the existing entries, adds at least one entry to an empty stack, and leaves the current exception's frame on top whenever it adds anything; no limit check |
| ShadowStack.Assert | SecureMonitor/Exception.cpp:221-246 | an empty stack always fails; on success the top entry equals the live frame for the returned EXC_RETURN, and when the walk goes on past that frame a second entry exists and equals the next live frame; that EXC_RETURN is the top entry's, and exactly one entry is popped |
| ShadowStack.Mismatch | SecureMonitor/Exception.cpp:227-245 | the integrity checks report nothing only when the top entry is the live frame and, if the walk goes on, there is a second entry and it is the next live frame |
| ShadowStack.AssertOkIff | SecureMonitor/Exception.cpp:221-246 | the return check passes exactly when the stack is not empty, its top entry is the live frame, and, when the walk goes on, a second entry exists and is the next live frame |
| ShadowStack.PushThenAssert | SecureMonitor/Exception.cpp:176-246 | an exception entry followed by its return with the same stack pointers passes the check, returns the entry's EXC_RETURN and pops one entry, when the entry found the stack empty or pushed two frames or more |
| ShadowStack.PushedOnTop | SecureMonitor/Exception.cpp:202-204 | after a chain segment is pushed reversed, its first two frames are the top two entries, so the return check passes |
| ShadowStack.AssertPasses | SecureMonitor/Exception.cpp:227-245 | the return check passes whenever the top entry, and the entry below it when the walk continues, match the live frames |
| ShadowStack.Create | SecureMonitor/Exception.cpp:263-285 | creation succeeds exactly when the region, as a signed size, holds one 16-byte frame; it keeps start and limit; a running thread's stack is empty and another's holds the simulated frame |
| ShadowStack.CreateThenAssert | SecureMonitor/Exception.cpp:263-285 | a thread created suspended is resumed through its simulated frame: the return check against that frame passes and empties the stack |
| Base64.CharOf | Example/App/Base64.hpp:12-14 | every table character is in the RFC 4648 section 4 alphabet and is never the pad '=' |
| Base64.CharOfIsTableLookup | Example/App/Base64.hpp:12-14 | the range-wise definition agrees with the 64-character table string at every index |
| Base64.IndexOfCharOf | Example/App/Base64.hpp:12-14 | every table character reads back as its own index |
| Base64.CharOfIndexOf | Example/App/Base64.hpp:12-14 | exactly the alphabet's characters have an index, '=' has none, and looking an index up gives the character back |
| Base64.Render | Example/App/Base64.hpp:31-33 | rendering keeps the length and maps each position to its table character or '=' |
| Base64.TailSymbols | Example/App/Base64.hpp:38-53 | a final group of n = 1 or 2 bytes gives four symbols of which exactly the last 3 - n are pads |
| Base64.EncodeAndOutput | Example/App/Base64.hpp:11-54 | the byte-at-a-time loop with its three-byte staging array emits exactly the group-wise encoding of the input |
| Base64.EmitGroup | Example/App/Base64.hpp:25-35 | a full staging array emits the four table characters of its sextets |
| Base64.EmitTail | Example/App/Base64.hpp:38-53 | a partial staging array is zero-filled and emits i + 1 table characters followed by 3 - i pads |
| Base64.SymbolsAppend | Example/App/Base64.hpp:25-35 | groups are encoded independently: the encoding of a whole number of groups followed by more bytes is the concatenation of the two encodings |
| Base64.EncodeLength | Example/App/Base64.hpp:23-53 | n bytes give 4·⌈n/3⌉ characters, so empty input gives no output |
| Base64.EncodePadding | Example/App/Base64.hpp:38-53 | every character is in the alphabet or is '=', and exactly the last (3 - n mod 3) mod 3 characters are '=' |
| Base64.SextetsRoundTrip | Example/App/Base64.hpp:26-29 | the masks and shifts lose no bit: the three bytes are recovered from the four sextets |
| Base64.GroupRoundTrip | Example/App/Base64.hpp:26-33 | a full group's four characters decode back to its three bytes |
| Base64.TailRoundTrip | Example/App/Base64.hpp:38-53 | a padded final quartet decodes back to its one or two bytes |
| Base64.RoundTrip | Example/App/Base64.hpp:11-54 | decoding the output with an RFC 4648 section 4 decoder gives back the input |
| Decimal.ValueOfDigits | Example/App/Utils.hpp:17-27 | the digits produced are all decimal digits and read back as the number, so the rendering loses nothing |
| Decimal.NoLeadingZero | Example/App/Utils.hpp:20-24 | a positive number's first digit is not '0' |
| Decimal.DigitsLength | Example/App/Utils.hpp:18-21 | a number below 10^k has at most k digits, which is why a 10-character buffer suffices for a `uint32_t` |
| Decimal.DigitsInjective | Example/App/Utils.hpp:17-27 | different numbers print differently |
| Decimal.SignedText | tools/patch/src/arm/format.rs:66-74 | Rust's `{}` of an integer is never empty, and is all digits for a non-negative one |
| Decimal.SignedTextInjective | tools/patch/src/arm/format.rs:66-74 | different integers format differently, so the text can be parsed back |
| Print.Reverse | Example/App/Utils.hpp:24 | `std::reverse` of the filled buffer: the same length, elements in the opposite order |
| Print.Print | Example/App/Utils.hpp:17-27 | the output is the decimal representation of `i` without leading zeros, at most 10 digit characters, and empty exactly when `i` is 0; `Print` in Example/App/Main.cpp:59-69 is the same code |
| LatencyRecords.WordRoundTrip | Example/App/Main.cpp:71-74 | a `uint32_t` field stored little-endian reads back as itself |
| LatencyRecords.Bytes | Example/App/Main.cpp:80-81 | the buffer handed to the encoder holds `recordCount * sizeof records[0]` = 8 bytes per record |
| LatencyRecords.BytesRoundTrip | Example/App/Main.cpp:71-81 | the bytes of the records read back as the records |
| LatencyRecords.Flush | Example/App/Main.cpp:79-86 | `FlushRecord` empties the buffer and writes 4·⌈8n/3⌉ Base64 characters followed by CR LF |
| LatencyRecords.FlushRoundTrip | Example/App/Main.cpp:79-86 | a flushed line decodes to exactly the records that were buffered |
| LatencyRecords.RecordOf | Example/App/Main.cpp:110-112 | the timer field is RELOAD minus VALUE in 32-bit arithmetic, wrapping when VALUE exceeds RELOAD, and the stack pointer is stored as read |
| LatencyRecords.HandleTimer1 | Example/App/Main.cpp:100-117 | one record is appended and the buffer is never left full; below 63 records nothing is written; the 64th record triggers a flush whose line decodes to all 64 records and empties the buffer |
| LatencyRecords.TickRecords | Example/App/Main.cpp:110-112 | one record per tick, in order |
| LatencyRecords.Run | Example/App/Main.cpp:100-117 | a run of interrupts keeps the buffer below 64 records |
| LatencyRecords.RunConserves | Example/App/Main.cpp:79-117 | no record is lost or duplicated: the records decoded from the lines written, then those still buffered, are the initial ones followed by one per tick |
| LatencyRecords.RunLines | Example/App/Main.cpp:114-116 | every line written decodes to exactly 64 records, and one line is written per 64 records |
| LibcStub.Advance | Example/Secure/LibcStub.cpp:15 | `heap_end += incr` on 32-bit pointers wraps modulo 2^32 and is the plain sum when that does not wrap |
| LibcStub.Sbrk | Example/Secure/LibcStub.cpp:3-23 | the first call starts from `__heap_start`; `heap_end` is always advanced; the call fails exactly when the advanced end reaches `__heap_end`, and otherwise returns the previous end |
| LibcStub.SbrkChecked | Example/Secure/LibcStub.cpp:14-22 | with the check made first, a refusal leaves `heap_end` where it was and a success returns the previous end with the new end below `__heap_end` |
| LibcStub.SbrkCheckedRegions | Example/Secure/LibcStub.cpp:14-22 | successful requests return contiguous, non-overlapping regions inside the heap |
| LibcStub.SbrkCheckedRefusalHarmless | Example/Secure/LibcStub.cpp:14-22 | with the check made first, a refused request does not change the answer to any later request |
| LibcStub.SbrkRefusalLeaks | Example/Secure/LibcStub.cpp:15-21 | as written, a refused request of 0x2000 bytes on the heap [0x1000, 0x2000) makes a following 0x10-byte request fail, which succeeds on a fresh heap and after a checked refusal |
| LibcStub.Write | Example/Secure/LibcStub.cpp:35-46 | `_write` hands every character to the console in order and returns `nbytes` |
| TzMpc.OnesFromUnchecked | Example/Secure/TzMpcDriver.cpp:11-15 | for a position below 32, exactly the bits at or above the position are set |
| TzMpc.OnesFrom | Example/Secure/TzMpcDriver.cpp:17-23 | exactly the bits at or above the position are set, so none at position 32 |
| TzMpc.ApplyFilterMask | Example/Secure/TzMpcDriver.cpp:25-27 | as written, a narrowed update sets each in-filter bit to the XOR mask bit and ANDs each other bit with the AND mask, rather than keeping it |
| TzMpc.ApplyFilterMaskPreserving | Example/Secure/TzMpcDriver.cpp:25-27 | the corrected narrowing `{and \| ~filter, xor & filter}` gives in-filter bits the full update and keeps every other bit |
| TzMpc.SetEnableBusError | Example/Secure/TzMpcDriver.hpp:26-34 | CTRL bit 4 becomes `e`, every other CTRL bit is kept, one CTRL write is logged, and nothing else changes |
| TzMpc.SetEnableAutoIncrement | Example/Secure/TzMpcDriver.hpp:46-54 | CTRL bit 8 becomes `e`, every other CTRL bit is kept, one CTRL write is logged, and nothing else changes |
| TzMpc.UpdateGroupLut | Example/Secure/TzMpcDriver.hpp:62-64 | the selected lookup-table word becomes `(old & and) ^ xor`, logged as one write; no other word, the index or CTRL changes |
| TzMpc.FullGroupsLut | Example/Secure/TzMpcDriver.cpp:58-61 | the loop gives every group from the current one up to the end group, exclusive, the plain update, and no other group |
| TzMpc.FullGroupsSeeks | Example/Secure/TzMpcDriver.cpp:58-61 | the loop seeks to each following group in turn, up to the end group, so the cursor only moves forward |
| TzMpc.Begin | Example/Secure/TzMpcDriver.cpp:43-44 | a non-empty update first writes CTRL with auto-increment off, then seeks to the start group, without touching the table |
| TzMpc.StartGroup | Example/Secure/TzMpcDriver.cpp:52-56 | a partly covered start group gets the narrowed update for the bits from `start % 32` up, then the cursor moves to the next group; no other word changes |
| TzMpc.UpdateBlocksWords | Example/Secure/TzMpcDriver.cpp:36-67 | groups below the start group and above the end group, and the end group when `end % 32 == 0`, are never written; a boundary group gets the narrowed masks for its in-range bits; every group in between gets the plain masks |
| TzMpc.InRangeSingle | Example/Secure/TzMpcDriver.cpp:46-47 | when both bounds fall in one group, `OnesFrom(start % 32) ^ OnesFrom(end % 32)` selects exactly the blocks in the range |
| TzMpc.InRangeStart | Example/Secure/TzMpcDriver.cpp:52-53 | in the start group of a multi-group range, `OnesFrom(start % 32)` selects exactly the blocks in the range |
| TzMpc.InRangeEnd | Example/Secure/TzMpcDriver.cpp:63-64 | in the end group of a multi-group range, `~OnesFrom(end % 32)` selects exactly the blocks in the range |
| TzMpc.UpdateBlocksWrites | Example/Secure/TzMpcDriver.cpp:36-66 | an empty block range changes nothing; otherwise auto-increment is turned off first and BLK_IDX is set to each group from the start group to the end group once, ascending |
| TzMpc.CoveredGroups | Example/Secure/TzMpcDriver.cpp:40-66 | blocks of groups that are never written lie outside the range, and those of groups strictly inside lie in it |
| TzMpc.UpdateBlocksFixedBits | Example/Secure/TzMpcDriver.cpp:40-67 | with the corrected narrowing exactly the blocks of the range get the update and every other block keeps its bit |
| TzMpc.UpdateBlocksBits | Example/Secure/TzMpcDriver.cpp:40-67 | as written, fully covered groups get the update, while in a boundary group in-range blocks get the XOR mask bit and the other blocks are ANDed with the AND mask |
| TzMpc.UpdateRangeBits | Example/Secure/TzMpcDriver.cpp:31-68 | `UpdateRange` as written, bit by bit, in terms of the byte range shifted by the block size |
| TzMpc.UpdateRangeFixedBits | Example/Secure/TzMpcDriver.cpp:31-68 | the corrected `UpdateRange` changes exactly the blocks the byte range covers |
| TzMpc.UpdateRangeWrites | Example/Secure/TzMpcDriver.cpp:31-68 | the corrected `UpdateRange` issues the CTRL and BLK_IDX writes of the source, in order |
| TzMpc.AssignRangeToNonSecure | Example/Secure/TzMpcDriver.hpp:18-20 | with the corrected narrowing of the boundary groups (see Findings), the blocks of the range become Non-Secure and every other block keeps its attribute |
| TzMpc.AssignRangeToSecure | Example/Secure/TzMpcDriver.hpp:22-24 | with the corrected narrowing of the boundary groups (see Findings), the blocks of the range become Secure and every other block keeps its attribute |
| TzMpc.AssignNonSecureAsWrittenClearsNeighbour | Example/Secure/TzMpcDriver.cpp:52-54 | with BLK_CFG 0 and group 0 all Non-Secure, assigning bytes [32, 64) to Non-Secure as written makes block 0 Secure, while the corrected update keeps it Non-Secure |
| TzMpc.AlignedRangeAgrees | Example/Secure/TzMpcDriver.cpp:25-27 | when both ends of the block range are multiples of 32, no group is narrowed: `UpdateRange` as written equals the corrected one for every mask pair, writes included, and so both `AssignRange` operations equal the source's |
| TzMpc.ShiftRightMultiple | Example/Secure/TzMpcDriver.hpp:42-44 | shifting `c * 2^(j + k)` right by `k` gives `c * 2^j` |
| TzMpc.GroupAlignedShift | Example/Secure/Main.cpp:86 | a multiple of 2 MiB shifted right by a block-size shift between 5 and 16 is a multiple of 32 blocks |
| TzMpc.FirmwareRangesAligned | Example/Secure/Main.cpp:83-92 | for BLK_CFG at most 11, the two ranges the firmware assigns to Non-Secure are group-aligned, so the model's `AssignRangeToNonSecure` is exactly the update the firmware performs |
| ArmInst.LowestSet | Patcher/src/arm/inst.rs:13 | `bit_scan_forward` gives the lowest set bit at or above the start, or 32 when there is none |
| ArmInst.Unique | Patcher/src/arm/inst.rs:12-19 | `unique` returns a register only for a set that is exactly that register's bit |
| ArmInst.UniqueIff | Patcher/src/arm/inst.rs:12-19 | `unique` is `Some(g)` exactly when the set is the singleton of `g` |
| ArmInst.From | Patcher/src/arm/inst.rs:26-30 | `GprSet::from(g)` has exactly bit `g` set |
| ArmInst.UniqueFrom | Patcher/src/arm/inst.rs:12-30 | `unique(from(g))` is `Some(g)` |
| ArmInst.Members | Patcher/src/arm/inst.rs:21-23 | `iter` yields exactly the set bits, each once, in ascending order |
| ArmInst.MembersFromSingle | Patcher/src/arm/inst.rs:21-30 | a singleton iterates as its one register |
| ArmInst.Value | Patcher/src/arm/inst.rs:36-52 | every condition's discriminant is below 15 |
| ArmInst.FromValue | Patcher/src/arm/inst.rs:55-62 | `from_value(x)` is defined exactly for x below 15, and its discriminant is x |
| ArmInst.FromValueValue | Patcher/src/arm/inst.rs:36-62 | `from_value` of a condition's discriminant gives the condition back |
| ArmFormat.GprText | tools/patch/src/arm/format.rs:18-29 | a register number prints exactly when it is below 16; a larger index panics |
| ArmFormat.GprTextShape | tools/patch/src/arm/format.rs:23-26 | registers 0 to 12 print as "r" and the number, 13 to 15 as "sp", "lr", "pc" |
| ArmFormat.CondText | tools/patch/src/arm/format.rs:43-54 | a condition prints as a two-letter suffix, and only `Cond::None` prints as nothing |
| ArmFormat.GprListText | tools/patch/src/arm/format.rs:31-41 | a register list prints exactly when every member is a register, one name per member, in order |
| ArmFormat.GprSetText | tools/patch/src/arm/format.rs:31-41 | a set prints exactly when it has no bit above 15 |
| ArmFormat.GprSetTextSingle | tools/patch/src/arm/format.rs:31-41 | a singleton set prints as its register's name |
| ArmFormat.OperandText | tools/patch/src/arm/format.rs:56-64 | immediates and labels print as written; only a non-register number fails to print |
| ArmFormat.DispText | tools/patch/src/arm/format.rs:66-74 | an immediate displacement prints as "#" and the number; only a non-register number fails to print |
| ArmFormat.Concat | tools/patch/src/arm/format.rs:95-124 | a sequence of written pieces succeeds exactly when every piece does |
| ArmFormat.FormatBranch | tools/patch/src/arm/format.rs:80-96 | a branch prints as "b", "l" if linking, "x" exactly for a register target, "ns" if non-secure, the condition, a space and the target |
| ArmFormat.LoadShapes | tools/patch/src/arm/format.rs:97-128 | a single-register load from a label needs displacement #0 and no write-back; a multi-register load prints only as `ldmdb` with #-4 pre-index or `ldmia` with #4 post-index; a register displacement with write-back panics |
| ArmParse.ShapedKeysDistinct | Tools/Patcher/src/arm/parse.rs:16-39 | keys `r0` to `r15` followed by three two-letter names that do not start with `r` are pairwise distinct |
| ArmParse.GprTableWellFormed | Tools/Patcher/src/arm/parse.rs:16-39 | `GPR_MAP`'s keys are distinct and lower-case, and each names a register from 0 to 15 |
| ArmParse.GprFromStr | Tools/Patcher/src/arm/parse.rs:10-14 | `Gpr::from_str` only ever returns registers 0 to 15 |
| ArmParse.GprFromStrSpelling | Tools/Patcher/src/arm/parse.rs:10-39 | a string denotes register g exactly when, in any mix of cases, it is "r" and g's number, or, for 13 to 15, the alias g prints under |
| ArmParse.GprRoundTrip | Tools/Patcher/src/arm/parse.rs:10-39 | every register's printed name reads back as the register |
| ArmParse.SuffixesWellFormed | Tools/Patcher/src/arm/parse.rs:89-107 | the 18 condition suffixes are spelled differently from one another, each empty or two lower-case letters |
| ArmParse.SuffixIndex | Tools/Patcher/src/arm/parse.rs:89-107 | the suffix table holds every condition under the spelling the formatter prints for it |
| ArmParse.Expand | Tools/Patcher/src/arm/parse.rs:86-113 | a handler that accepts a condition contributes one key per suffix, 18 in all |
| ArmParse.Entries | Tools/Patcher/src/arm/parse.rs:80-115 | `MAP` is built from 54 entries, three handlers by 18 suffixes |
| ArmParse.EntriesDistinct | Tools/Patcher/src/arm/parse.rs:80-115 | no key occurs twice, so collecting the entries into the hash map loses none |
| ArmParse.Lookup | Tools/Patcher/src/arm/parse.rs:53 | the case-insensitive table lookup agrees with reading the lower-cased key directly as a mnemonic and a suffix, and only finds table handlers |
| ArmParse.FoundDecodes | Tools/Patcher/src/arm/parse.rs:80-115 | whatever the table finds for a key is that key's own mnemonic and condition |
| ArmParse.DecodedFound | Tools/Patcher/src/arm/parse.rs:80-115 | every key that reads as a mnemonic and suffix is found in the table |
| ArmParse.SkipSeparators | Tools/Patcher/src/arm/parse.rs:143 | `ws!` drops exactly the leading spaces, tabs, carriage returns and newlines, and what remains does not start with one |
| ArmParse.SymbolRun | Tools/Patcher/src/arm/parse.rs:139-142 | `take_while` returns the longest prefix made of letters, digits, `.`, `_` and `$` |
| ArmParse.Symbol | Tools/Patcher/src/arm/parse.rs:139-165 | after the separators, no text is an unexpected end, a first character that cannot start a label is a parse error, and otherwise the result is the whole run of label characters there, with the rest of the text ignored |
| ArmParse.SymbolReads | Tools/Patcher/src/arm/parse.rs:139-165 | any label, behind any separators and in front of anything that cannot continue it, reads back as itself |
| ArmParse.SymbolOfName | Tools/Patcher/src/arm/parse.rs:139-165 | a label on its own reads back as itself |
| ArmParse.Parse | Tools/Patcher/src/arm/parse.rs:117-193 | the pass-through handler keeps the operand text as it is; a branch handler succeeds exactly when a label can be read from the operands |
| ArmParse.ParseArm | Tools/Patcher/src/arm/parse.rs:49-60 | an unknown mnemonic gives `Ok(None)` and only it does; `adc` gives the pass-through with its condition and rest; a branch gives the label the symbol grammar reads, or that grammar's error |
| ArmParse.MnemonicRoundTrip | Tools/Patcher/src/arm/parse.rs:80-115 | a handler's key followed by the formatter's spelling of a condition is lower-case and reads back as that handler and condition |
| ArmParse.MiscRoundTrip | Tools/Patcher/src/arm/parse.rs:117-134 | a pass-through prints as "adc", its condition, a space and the rest, and that key and rest parse back to it |
| ArmParse.BranchRoundTrip | Tools/Patcher/src/arm/parse.rs:167-193 | a branch to any label of letters, digits, `.`, `_` and `$` prints as its mnemonic, a space and the label, and parses back to the same branch |
| ArmParse.BranchMnemonicDecodes | Tools/Patcher/src/arm/parse.rs:80-115 | `b` or `bl` followed by the formatter's spelling of any condition, lower-cased, reads back as that branch handler and condition |
| ArmParse.BranchParses | Tools/Patcher/src/arm/parse.rs:49-60 | a branch mnemonic with any condition, given a label as its operands, parses to a branch to that label with that link flag and condition |
| ArmParse.LongKeysUnknown | Tools/Patcher/src/arm/parse.rs:80-115 | no key longer than five characters is in the table |
| GasDirectives.Name | Patcher/src/gasio/directive.rs:69-107 | every directive is written as a dot followed by at least one character |
| GasDirectives.KindOfName | Patcher/src/gasio/directive.rs:69-107 | reading a directive's name back, by the letter after the dot and then the whole name, gives the directive |
| GasDirectives.NamesDistinct | Tools/Patcher/src/gasio/directive.rs:69-107 | no two directives share a name, so keying the table by name loses none |
| GasDirectives.Map | Patcher/src/gasio/directive.rs:120-157 | `MAP` has one entry per handler, keyed by that handler's name |
| GasDirectives.HandlersComplete | Patcher/src/gasio/directive.rs:121-153 | every directive kind has a handler in the table |
| GasDirectives.FromRaw | Patcher/src/gasio/directive.rs:14-22 | a key is recognised exactly when it is spelled, case included, like some directive's name, which then keeps the rest untouched; any other key gives "Unrecognized directive: '<key>'" |
| GasDirectives.DisplayFromRaw | Patcher/src/gasio/directive.rs:24-30 | a recognised statement displays as its key, a space and its rest |
| GasDirectives.FromRawDisplay | Tools/Patcher/src/gasio/directive.rs:15-30 | displaying a directive and parsing its name and rest gives the directive back |
| GasDirectives.CaseSensitive | Patcher/src/gasio/directive.rs:16 | the lookup is exact: no key with a capital letter, such as ".TEXT", is recognised |
| GasDirectives.NameLowerCase | Patcher/src/gasio/directive.rs:69-107 | no directive name contains a capital letter |
| GasArm.FromRaw | Patcher/src/gasio/arm.rs:19-30 | a key that lower-cases to "adc" is the ARM pass-through with its rest, whatever the GAS table holds; otherwise the key is recognised exactly when the GAS table knows it, and unknown keys give the GAS error |
| GasArm.GasReachable | Patcher/src/gasio/arm.rs:19-30 | a GAS directive's name always reaches the GAS table, because no GAS name is a case variant of "adc" |
| GasArm.DisplayRoundTrip | Patcher/src/gasio/arm.rs:32-57 | every directive displays as its key, a space and its rest, and parses back from them |
| GasArm.UpperCaseInstruction | Patcher/src/gasio/arm.rs:19-30 | a key gives the ARM `adc` pass-through exactly when it is "adc" in some mix of cases (each of its three letters in either case) |
| Table.Find | Tools/Patcher/src/arm/parse.rs:16-38 | looking a key up in a map collected from pairs finds nothing exactly when no pair has the key, and otherwise the value of the last pair with it |
| Table.FindUnique | Patcher/src/gasio/directive.rs:120-157 | a key that occurs once in the pairs finds its own value |
| Strings.Lower | Tools/Patcher/src/arm/parse.rs:12 | the case folding of `UniCase`, taken as ASCII: same length, each upper-case letter mapped to its lower-case one and every other character kept |
| BuildOptions.FirstViolation | examples/tools/runbench/src/main.rs:259-294 | the first rule from a position on that a configuration violates, in checking order, with no earlier violated rule; none exactly when every later rule holds |
| BuildOptions.ValidateMeaning | examples/tools/runbench/src/main.rs:259-294 | Ok exactly when no dependency rule is violated; otherwise the message of the first violated rule, in the order the checks are written |
| BuildOptions.ParseIdRoundTrip | examples/tools/runbench/src/main.rs:174-212 | the displayed identifier of a configuration whose "unnest" implies "ses" and "aborting" implies "ss" reads back as that configuration |
| BuildOptions.IdInjective | examples/tools/runbench/src/main.rs:174-212 | two valid configurations with the same identifier are the same configuration, so results keyed by the identifier never collide |
| BuildOptions.ParseFlagText | examples/tools/runbench/src/main.rs:296-328 | every `zig build` flag is spelled differently from every other: reading a flag's spelling back gives the flag, the ROM offset included |
| BuildOptions.Flags | examples/tools/runbench/src/main.rs:296-328 | the flags start with the release mode and "-Dcfi=false", carry the accelerated raise-privilege switch in exactly one polarity, and end with a ROM offset exactly when it is non-zero |
| BuildOptions.FlagArgs | examples/tools/runbench/src/main.rs:296-328 | the arguments appended are the flags' spellings, one per flag, in order |
| BuildOptions.InFlags | examples/tools/runbench/src/main.rs:302-319 | each CFI flag is present exactly when its own switch is on |
| BuildOptions.FlagsRoundTrip | examples/tools/runbench/src/main.rs:296-328 | the flag list determines the configuration it was made from: every switch, the mode and the ROM offset are recovered |
| BuildOptions.OptionOfKey | examples/tools/runbench/src/main.rs:220-240 | every configuration sits at one point of the product, in the nesting order mode, ctx, ses, unnest, ss, aborting_ss, icall, accel_raise_pri, rom_offset |
| BuildOptions.KeyOptionOf | examples/tools/runbench/src/main.rs:220-240 | every point of the product is the coordinates of the configuration built from it |
| BuildOptions.WithinKey | examples/tools/runbench/src/main.rs:233-237 | a configuration is in the product exactly when its ROM offset is one of those tried: 0, 4, 8 and 12 when varying, otherwise only 0 |
| BuildOptions.KeepValid | examples/tools/runbench/src/main.rs:256 | the filter keeps exactly the configurations `validate` accepts |
| BuildOptions.CandidateMembers | examples/tools/runbench/src/main.rs:220-240 | the product holds every combination of switches and modes with a tried ROM offset, and nothing else |
| BuildOptions.AllValidValuesMembers | examples/tools/runbench/src/main.rs:216-257 | the enumeration is sound and complete: it lists exactly the valid configurations whose ROM offset is one of those tried |
| BuildOptions.CandidatesSorted | examples/tools/runbench/src/main.rs:220-240 | the product comes out in strictly increasing lexicographic order of the coordinates |
| BuildOptions.KeepValidSorted | examples/tools/runbench/src/main.rs:256 | filtering keeps a sorted list sorted |
| BuildOptions.AllValidValuesOrdered | examples/tools/runbench/src/main.rs:216-257 | the valid configurations come in strictly increasing coordinate order, so none is listed twice |
| Tuples.PrependMembers | examples/tools/runbench/src/main.rs:220-240 | one level of `iproduct!` holds exactly the tuples whose head is one of the level's values and whose tail is one of the inner tuples |
| Tuples.ProductMembers | examples/tools/runbench/src/main.rs:220-240 | the nested product holds exactly the tuples whose every coordinate lies in its own domain |
| Tuples.ProductLength | examples/tools/runbench/src/main.rs:220-240 | the product has as many tuples as the product of the domain sizes |
| Tuples.PrependSorted | examples/tools/runbench/src/main.rs:220-240 | one level of the product over increasing values keeps the tuples in strictly increasing lexicographic order |
| Tuples.ProductSorted | examples/tools/runbench/src/main.rs:220-240 | with every domain increasing, the product enumerates its tuples in strictly increasing lexicographic order, the outermost coordinate varying slowest |
| Tuples.SortedDistinct | examples/tools/runbench/src/main.rs:220-240 | a strictly increasing enumeration lists no tuple twice |
| App.Admit | examples/tools/runbench/src/app.rs:75-92 | a configuration is admitted exactly when each feature the benchmark opts out of is in its forced state: safe shadow exception stacks on, shadow stacks off, context management on, accelerated raise-privilege off, icall sanitizer off |
| App.KeepAdmitted | examples/tools/runbench/src/app.rs:75-92 | the filter keeps exactly the admitted configurations |
| App.PlanMembers | examples/tools/runbench/src/app.rs:75-92 | the configurations run are exactly the valid ones, with a ROM offset that is tried, that the benchmark admits |
| App.PlanForcedFeatures | examples/tools/runbench/src/app.rs:17-31 | a benchmark that opts out of shadow exception stacks always runs with the safe kind on; one that opts out of context management always runs with it on |
| App.KeepAdmittedSorted | examples/tools/runbench/src/app.rs:75-92 | filtering keeps the enumeration order |
| App.PlanOrdered | examples/tools/runbench/src/app.rs:75-116 | the configurations are run in strictly increasing enumeration order, none twice |
| App.Retry | examples/tools/runbench/src/app.rs:286-306 | at most three calls; every call before the last failed; the result is the last call's; an error comes only after three failures, and success exactly when one of the first three calls succeeds |
| App.RetryOnFail | examples/tools/runbench/src/app.rs:286-306 | the loop with its 32-bit down-counter makes the calls and returns the result `Retry` describes |
| App.IgnoreNotFound | examples/tools/runbench/src/app.rs:257-263 | success exactly when the removal succeeded or failed with "not found"; any other error passes through unchanged |
| App.IgnoreNotFoundIdempotent | examples/tools/runbench/src/app.rs:257-263 | applying the filter twice is the same as once |
| App.RunOne | examples/tools/runbench/src/app.rs:116-223 | a configuration succeeds only after its build succeeded with the recorded arguments, both images were present, programming succeeded within three attempts and a capture attempt succeeded within three; its metadata entry holds the configuration, its identifier and the build arguments; a build that leaves no Secure image fails with `BuiltExeNotFound` naming it |
| App.RunAll | examples/tools/runbench/src/app.rs:116-224 | a successful loop has one entry per configuration, each the result of handling that configuration |
| App.RunAllMatrix | examples/tools/runbench/src/app.rs:116-224 | a successful loop records every configuration of the plan, in plan order, with the build arguments it was built with |
| App.RunAllOutcome | examples/tools/runbench/src/app.rs:116-224 | the loop succeeds exactly when every configuration does, and otherwise ends with the error of the first configuration that fails |
| App.Run | examples/tools/runbench/src/app.rs:72-234 | the metadata is produced only when the target was built, the output directory was made and `meta.json` was written; it names "secure.elf" and the benchmark's own image, and lists every configuration run, in plan order, with its build arguments |
| Capture.FindFrom | examples/tools/runbench/src/target.rs:90 | the search from a position returns the earliest end of a marker occurrence at or after it, and nothing exactly when no occurrence ends there or later |
| Capture.Find | examples/tools/runbench/src/target.rs:58-90 | the matcher returns the earliest end of any marker occurrence, and nothing exactly when no marker occurs |
| Capture.FindIs | examples/tools/runbench/src/target.rs:90 | any end that is a match with no earlier match is the one the matcher returns |
| Capture.MaxLen | examples/tools/runbench/src/target.rs:87 | `max_pattern_len` is at least every marker's length and equal to one of them |
| Capture.WindowFind | examples/tools/runbench/src/target.rs:86-98 | when the output so far holds no marker, searching only the last `n + max_pattern_len - 1` bytes after appending `n` bytes finds a marker exactly when searching everything does, and at the same place |
| Capture.WindowMatch | examples/tools/runbench/src/target.rs:87-90 | when no marker occurrence starts before the window, the marker ends inside the window are those of the whole output, shifted by the window's start |
| Capture.ShiftFind | examples/tools/runbench/src/target.rs:87-90 | when no marker occurrence starts before offset `i`, searching from `i` finds a marker exactly when searching everything does, at the same place shifted by `i` |
| Capture.OldHasNoMatch | examples/tools/runbench/src/target.rs:84-89 | after appending to output that held no marker, every marker occurrence ends among the new bytes and none starts before the window |
| Capture.CaptureOutput | examples/tools/runbench/src/target.rs:60-105 | the incremental loop returns exactly what rescanning the whole output after every chunk would: the output cut just after the first marker, everything read at end of file or on a read error, a timeout, or "too long" past one mebibyte |
| Capture.ReferenceOutput | examples/tools/runbench/src/target.rs:60-105 | any output returned is a prefix of everything read and either holds no marker or ends exactly at the end of its earliest marker |
| Capture.ReferenceBound | examples/tools/runbench/src/target.rs:61-102 | the output returned never exceeds the one-mebibyte limit by more than one 16384-byte buffer |
| Capture.TimeoutDiscards | examples/tools/runbench/src/target.rs:73-77 | a timeout that comes before the stream ends loses the bytes read: output comes back only when a marker ended the capture first |
| Targets.ChooseSerial | examples/tools/runbench/src/target.rs:109-128 | a port named on the command line is used as is; otherwise the choice succeeds exactly when the system lists one port, which is then the one chosen; an empty list gives `NoPortsAvailable` and a longer one an error naming every port |
| Targets.QemuProgram | examples/tools/runbench/src/target/qemu.rs:44-52 | programming the emulator always succeeds and replaces the remembered images with the given ones, in order |
| Targets.LoaderArgs | examples/tools/runbench/src/target/qemu.rs:69-73 | every image after the first becomes a "-device" argument followed by "loader,file=" and the image's path, in order |
| Targets.QemuCommand | examples/tools/runbench/src/target/qemu.rs:58-73 | a command line exists exactly when an image was programmed; it is the emulator, the fixed machine, display and semihosting options, "-kernel" and the first image, then two arguments per further image |
| Targets.LoadedImagesOfLoaderArgs | examples/tools/runbench/src/target/qemu.rs:69-73 | the loader arguments can be read back as the images they were made from |
| Targets.QemuLaunchesProgrammedImages | examples/tools/runbench/src/target/qemu.rs:44-73 | after programming a non-empty list of images, the launch command loads exactly those images, the first as the kernel, in order |
| Targets.LpcProgram | examples/tools/runbench/src/target/lpc55s69.rs:57-91 | programming succeeds exactly when every image's absolute path is found and its flash command succeeds; on success one flash command was run per image, in order, on the absolute path; no more commands are run than there are images |
| Targets.LpcReset | examples/tools/runbench/src/target/lpc55s69.rs:93-146 | the board is halted, then the serial port is opened at 115200 baud, then the board is reset: the steps taken are always a prefix of that order, the port is opened only after a successful halt and the reset issued only once the port is open, the reset succeeds exactly when all three steps do, and the first failing step decides the error (halt, serial or reset error, carrying that step's message) |
| Targets.UidPlacement | examples/tools/runbench/src/target/lpc55s69.rs:43-49 | the probe selection follows the target name at the same place in the flash and the halt/reset commands, and the flashed path is the last argument |
| GasLines.FindLineComment | Patcher/src/gas.rs:136 | a position found holds `#` or `@` |
| GasLines.LineCommentFirst | Patcher/src/gas.rs:136 | the position found is the first line-comment character: none comes before it, and none at all when nothing is found |
| GasLines.FindPair | Patcher/src/gas.rs:137 | a position found is where the two-character pattern occurs |
| GasLines.PairFirst | Patcher/src/gas.rs:153 | the position found is the first occurrence of the pattern, and nothing is found only when it does not occur |
| GasLines.FindLineEnd | Patcher/src/gas.rs:123 | a line end found is a line feed with none before it; nothing is found only in text without line feeds |
| GasLines.ReadLine | Patcher/src/gas.rs:123 | `read_line` splits off a non-empty first piece, with the rest following it, that has no line feed before its last character and ends in one unless the input is used up |
| GasLines.Min | Patcher/src/gas.rs:138-141 | the smaller of two optional positions: nothing only when both are absent, otherwise one of them, at or below every present one |
| GasLines.Pop | Patcher/src/gas.rs:132 | a line feed at the end of the read line is removed; the corrected reader keeps a line whose last character is something else |
| GasLines.FirstComment | Patcher/src/gas.rs:136-141 | the first comment character found lies inside the line |
| GasLines.Next | Patcher/src/gas.rs:119-127 | at the end of the input the reader reports the end and reads nothing |
| GasLines.OuterMatches | Patcher/src/gas.rs:134-181 | the outer loop of `next` assembles what the character-by-character comment-stripping scanner does from the rest of the physical line and the input after it, for the corrected reader on any input and for the reader as written on clean input |
| GasLines.InnerMatches | Patcher/src/gas.rs:152-177 | the inner loop, with a comment open, gives what the scanner gives from inside that comment, reading further lines until a terminator or the end of the input |
| GasLines.NextMatchesReference | Patcher/src/gas.rs:118-183 | the corrected reader assembles exactly the logical line of the comment-stripping scanner, and so does the reader as written on input without a slash right after an opener and with a final line feed |
| GasLines.NextLines | Patcher/src/gas.rs:118-183 | the end is reported exactly when the input is used up; a logical line has no line feed, consumes a non-empty front part of the input, and the line index grows by the physical lines that part spans; an unterminated comment counts every remaining line |
| GasLines.NextAdvances | Patcher/src/gas.rs:118-181 | whatever the input, each call that does not meet the end consumes a non-empty front part of the input and raises the line index, so repeated calls reach the end |
| GasLines.New | Patcher/src/gas.rs:108-114 | a new parser has read nothing: the whole input is left and the line index is 0 |
| GasLines.Classify | Patcher/src/gas.rs:186-193 | a parse error becomes a syntax error at the given line with the grammar's message; a successful parse is an item, `Empty` exactly when the grammar found no statement, and otherwise the grammar's statement |
| GasLines.NextItem | Patcher/src/gas.rs:118-194 | nothing comes back exactly at the end of the input, with the parser unchanged; an error is reported at the parser's new line index; otherwise the parser consumes input and its line index grows |
| GasLines.NextStatement | Tools/Patcher/src/gasio/main.rs:88-163 | the same for the reader whose grammar always yields a statement |
| GasLines.NextItemParses | Patcher/src/gas.rs:118-194 | the grammar is given the scanner's logical line and one line feed, with the error line the last physical line read; an unterminated comment is reported as "found a unterminated block comment" on the input's last line, consuming everything |
| GasLines.NextStatementParses | Tools/Patcher/src/gasio/main.rs:88-163 | the same for the reader whose grammar always yields a statement |
| GasLines.SlashAfterOpener | Patcher/src/gas.rs:151-158 | on "/*/a*/b" followed by a line feed, the reader as written closes the comment at the opener's own star and hands "a*/b" on, while the corrected reader hands on "b" |
| GasLines.SlashAfterOpenerAsWritten | Patcher/src/gas.rs:151-158 | as written, the terminator search starting at the opener finds the opener's star and the slash after it |
| GasLines.SlashAfterOpenerCorrected | Patcher/src/gas.rs:151-158 | searching after the opener finds the real terminator |
| GasLines.LastLineLosesCharacter | Patcher/src/gas.rs:129-132 | a last line without a line feed loses its last character as written ("nop" becomes "no") and keeps it corrected |
| ImportLib.Initial | tools/mkimplib/src/main.rs:26-30 | the table starts with exactly the `-s` names, none of them resolved |
| ImportLib.Entries | tools/mkimplib/src/main.rs:52-58 | the entry points a file marks are exactly the names some symbol spells with the "__acle_se_" prefix in front |
| ImportLib.AutoInclude | tools/mkimplib/src/main.rs:53-58 | the first pass adds every marked entry point and marks it unresolved again, even when an earlier file resolved it; other names keep their entries |
| ImportLib.LastDef | tools/mkimplib/src/main.rs:60-72 | a name has a last definition in a symbol table exactly when some symbol there has that name |
| ImportLib.Resolve | tools/mkimplib/src/main.rs:60-72 | the second pass adds no names; a name defined in the file takes the value of its last definition there, any other keeps its entry |
| ImportLib.Process | tools/mkimplib/src/main.rs:33-73 | after a file, the table's names are those before plus, for mkimplib, the file's marked entry points |
| ImportLib.CollectPlain | Tools/MakeImplib/src/main.rs:30-63 | MakeImplib's table holds exactly the `-s` names, each with the value of its last definition across all the files in order, or unresolved |
| ImportLib.CollectAutoKeys | tools/mkimplib/src/main.rs:26-73 | mkimplib's table holds exactly the `-s` names and the entry points marked in some file |
| ImportLib.CollectAutoUnmarked | tools/mkimplib/src/main.rs:26-73 | a `-s` name that no file marks keeps the value of its last definition across all the files, as in MakeImplib |
| ImportLib.CollectAutoMarked | tools/mkimplib/src/main.rs:33-73 | a name last marked by some file takes its value only from that file and later ones: definitions in earlier files are forgotten |
| ImportLib.Undefined | tools/mkimplib/src/main.rs:75-82 | the names reported before aborting are exactly those in the table without an address |
| ImportLib.Listed | tools/mkimplib/src/main.rs:84-87 | once everything is resolved, each name becomes one entry with its address, in the order the map hands them out |
| ImportLib.InsertPerm | tools/mkimplib/src/main.rs:88 | one insertion step of the sort keeps every entry and adds exactly the new one |
| ImportLib.InsertSorted | tools/mkimplib/src/main.rs:88 | inserting into a list sorted by address keeps it sorted |
| ImportLib.InsertStable | tools/mkimplib/src/main.rs:88 | inserting puts the new entry after every entry with the same address |
| ImportLib.SortSorted | tools/mkimplib/src/main.rs:88 | `sort_by_key` on the address gives a permutation of the entries in ascending address order |
| ImportLib.SortStable | tools/mkimplib/src/main.rs:88 | the sort is stable: entries with the same address keep their relative order |
| ImportLib.HexRoundTrip | tools/mkimplib/src/main.rs:116 | the hexadecimal digits of a value read back as the value |
| ImportLib.Hex8RoundTrip | tools/mkimplib/src/main.rs:116 | `{:08x}` reads back as the value and is exactly eight digits for a 32-bit address |
| ImportLib.ParseSetRoundTrip | tools/mkimplib/src/main.rs:116 | a `.set` line reads back as the symbol's name and address, so no two symbols or addresses print the same line |
| ImportLib.MkimplibLinesAt | tools/mkimplib/src/main.rs:113-118 | after ".syntax unified", the `k`-th symbol gets the type, set and global lines at positions `1 + 3k`, `2 + 3k` and `3 + 3k` |
| ImportLib.ClearThumb | Tools/MakeImplib/src/main.rs:84 | `addr & !1` is even, no larger than the address and at most one below it |
| ImportLib.MakeImplibLinesAt | Tools/MakeImplib/src/main.rs:82-87 | after ".syntax unified", the `k`-th symbol gets the set line with bit 0 cleared at position `1 + 2k` and the global line at `2 + 2k` |
| ImportLib.Mkimplib | tools/mkimplib/src/main.rs:23-122 | mkimplib aborts exactly when some name stays undefined, reporting exactly those names; otherwise it prints the syntax line and three lines per name |
| ImportLib.MakeImplib | Tools/MakeImplib/src/main.rs:5-88 | MakeImplib aborts exactly when some `-s` name stays undefined, reporting exactly those names; otherwise it prints the syntax line and two lines per name |
| ImportLib.SortedEntries | tools/mkimplib/src/main.rs:84-88 | the symbols printed are exactly the table's, each with its resolved address, in ascending address order, with equal addresses in map order |
| ImportLib.MkimplibOutput | tools/mkimplib/src/main.rs:113-118 | mkimplib's `k`-th symbol is declared a function, set to its own resolved address and made global, in that order |
| ImportLib.MakeImplibOutput | Tools/MakeImplib/src/main.rs:82-87 | MakeImplib's `k`-th symbol is set to its resolved address with bit 0 cleared and made global |

## Left out

- Process spawning, the async runtime and the file system (`subprocess.rs`, `tokio`, remove/copy/write/create_dir) are outcome parameters (`World`, `Setup`, `Board`), not modelled operations.
- The race between a read and the 35-second delay is an event in the stream (`Timeout`); a stream that runs out of events is a read that never completes.
- The Aho-Corasick matcher is specified as "earliest-ending occurrence of any marker". The default `process_output` regex extraction of app.rs is an outcome parameter, because it depends on the regex engine's semantics.
- Logging, `eprintln!` warnings (including "defined more than once"), serde_json formatting of `meta.json`, the structopt/clap command lines and the date-based output directory are not modelled.
- I/O errors of the readers and writers (`std::io::Error` from `read_line`, `writeln!`) are not modelled: the line reader and the import-library tools see their whole input as text or symbols.
- ELF parsing and the string table (goblin, mmap) are replaced by each file's list of symbol names and values; serial-port enumeration (mio_serial) is an outcome parameter of `ChooseSerial`.
- The nom grammars of the statement parsers (Patcher/src/gas.rs, Tools/Patcher/src/gasio/main.rs) are function parameters.
- The inline assembly and register access of the Secure monitor (`EnterInterrupt`, `LeaveInterrupt`, MMIO of the MPC) and the FreeRTOS, PL011 and semihosting glue are not modelled; MPC registers are words in a record and the Non-Secure memory is a total function from address to word.
- `TC_VEC_TABLE_*`, `EXC_RETURN_*` and the other constants defined in headers that are not part of this model are parameters.
- The benchmark trait files (bench_*.rs, profile_*.rs) are values of `App.Traits`.
- Strings.Lower: lower-cases ASCII letters only, where the tables it stands in for are keyed by `UniCase`, which folds case by Unicode's rules; every lookup built on it inherits the gap described for `ArmParse.GprFromStr`.
- ArmParse.Lookup: compares keys after ASCII-only lower-casing, so a mnemonic that matches a table key only under Unicode case folding is not found.
- ArmParse.GprFromStr: `UniCase` folds case by Unicode's rules, the model (`Strings.Lower`) by ASCII only. Characters such as U+017F (long s) or U+212A (Kelvin sign) fold to ASCII letters, so the source finds `sp` for "ſp" and the model finds nothing.
- ArmParse.ParseArm: the same ASCII-only folding of the mnemonic; "ſ" and similar characters in a mnemonic are not folded.
- GasArm.FromRaw: the same ASCII-only folding of the directive name.
- ArmParse.IsSymbolChar: Rust's `char::is_alphanumeric` also accepts non-ASCII letters and digits; the model accepts ASCII letters and digits only.
- ArmParse.Symbol: the parse error's text is `failed to parse` followed by nom's debug rendering of the error; the model keeps only the fixed prefix.
- The Tools copy of directive.rs is the same table under the name `Misc` and is modelled once by `GasDirectives`.
- The count of valid configurations (60, or 240 with varying ROM offsets) is not proved; `BuildOptions.AllValidValuesMembers` and `BuildOptions.AllValidValuesOrdered` characterise the enumeration exactly, and the number follows from them.
- App.Admit: the source compares `bo.ses` with `Some(SesType::Safe)`, a type that the `BuildOpt` of main.rs (which has `ses: bool` and `unnest: bool`) does not have; "safe" is taken to mean `ses && !unnest`.
- ShadowStack.Chain: the exception-chain walk takes a `fuel` bound and gives `None` when the chain is longer, because a function must terminate; the source's `do … while (MoveNext())` loop has no bound and walks any chain to its end.
- ShadowStack.ChainUntil: the same `fuel` bound as `ShadowStack.Chain`, where the source's loop has none.
- ShadowStack.Push: the same `fuel` bound as `ShadowStack.Chain`. The source does not check `g_shadowStackLimit` either (a TODO at SecureMonitor/Exception.cpp:181); the model keeps frames past `limit` as further entries, while the source writes them over whatever memory follows the 32-entry `g_shadowStack` array. That overwrite of neighbouring Secure memory is not modelled.
- Threads.ActivateThread: save and load of the shadow exception stack state are folded into the activation, as the source does them together; the active slot must hold a thread, as the source assumes.
- TzMpc.UpdateRangeFixedBits: requires the block-size shift to be below 32, as it is for every BLK_CFG value the device reports; a larger shift is undefined behaviour in C++.
- TzMpc.AssignRangeToNonSecure: uses the corrected narrowing of boundary groups (see Findings), not the as-written `FilterMask`, so on a range that ends inside a 32-block group it computes what the source evidently intends rather than what it does. The two agree whenever both ends are multiples of 32 blocks (TzMpc.AlignedRangeAgrees), which holds for both calls the firmware makes (TzMpc.FirmwareRangesAligned).
- TzMpc.AssignRangeToSecure: the same substitution as `TzMpc.AssignRangeToNonSecure`.
- GasLines.NextLines: the line-count statement is proved for the corrected reader, and for the reader as written only on input without the two flaws under "Findings".
- GasLines.NextItemParses: proved for the corrected reader, and for the reader as written only on input without the two flaws under "Findings".
- GasLines.NextStatementParses: proved for the corrected reader, and for the reader as written only on input without the two flaws under "Findings".
- GasLines.Next: the contract states only that the end of the input gives the end; the converse and everything else are in `GasLines.NextAdvances` and `GasLines.NextLines`.

## Findings

| source | as written | input that shows it | evidently intended | confidence | as-written member | corrected member |
|---|---|---|---|---|---|---|
| Example/Secure/TzMpcDriver.cpp:25-27 | `FilterMask` narrows an update to a boundary group as `{andMask & ~filter, xorMask & filter}`, so every block outside the range becomes `old & andMask`, which is Secure for both callers (andMask 0) | BLK_CFG 0, group 0 all Non-Secure, `AssignRangeToNonSecure(32, 64)`: block 0, outside the range, becomes Secure | `{andMask \| ~filter, xorMask & filter}`: blocks outside the range keep their attribute | high; not executed | TzMpc.AssignNonSecureAsWrittenClearsNeighbour | TzMpc.UpdateRangeFixedBits |
| Example/Secure/LibcStub.cpp:15-21 | `_sbrk_r` advances `heap_end` before checking it against `__heap_end` and does not undo the advance on failure | heap `[0x1000, 0x2000)`: a request for 0x2000 bytes fails, and then a request for 0x10 bytes also fails although it fits | check first and advance only on success, so a refused request changes nothing | medium; not executed | LibcStub.SbrkRefusalLeaks | LibcStub.SbrkCheckedRefusalHarmless |
| Patcher/src/gas.rs:151-158 | with a block comment found at `start`, the terminator search `find("*/")` starts at the opener itself, so an opener followed by a slash closes at once | the line "/*/a*/b": the grammar is given "a*/b" instead of "b" | search for the terminator after the two characters of the opener | high; not executed | GasLines.SlashAfterOpener | GasLines.NextMatchesReference |
| Patcher/src/gas.rs:129-132 | `line_buffer.pop()` removes the last character after a read even when that character is not a line feed | a last line "nop" without a line feed: the grammar is given "no" | remove the last character only when it is a line feed | high; not executed | GasLines.LastLineLosesCharacter | GasLines.NextMatchesReference |
