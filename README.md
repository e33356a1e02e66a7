# rOSt kernel core in Dafny

This project models the core of the rOSt x86-64 hobby kernel in Dafny and proves properties of that model.

The main part is the kernel's **bitmap frame allocator**. It tracks physical memory as 4 KiB and 2 MiB frames, using one bit per frame. It keeps two bitmaps of 64-bit words:

- The 4 KiB bitmap has 262 144 words, one 2 MiB frame of memory.
- The 2 MiB bitmap has 512 words, one 4 KiB frame of memory.

A bit in the 2 MiB bitmap is a summary. It is set when any of the 512 frames under it is used.

Besides the bitmaps, the allocator keeps two counters of free frames and two hints. A hint is the word from which the next scan starts. The model covers:

- `init`, including how it places its own bitmaps in memory;
- `set_used_lock` and `set_unused_lock`;
- `allocate_frame` and `deallocate_frame`;
- the getters;
- the two ways memory sizes are printed.

The model is in two layers:

- `FrameAllocatorSpec` is a value-level specification. The bitmap words are `seq<bool>` of length 64.
- `FrameAllocator.BitmapFrameAllocator` is a class over two `array<Word>`. Every method proves that its new abstract state is the specification function applied to the old one.

The properties are proved as lemmas about the specification functions, in these modules:

- `FrameAllocatorProperties`;
- `FramePlacement`;
- `FrameInit`.

The smaller pieces of the kernel are modelled in the same style.

- **Display:**
  - `format_size` and the frame-memory report (`SizeFormat`);
  - `to_separated_hex` and `log_to_separated_hex` (`HexNumber`, on top of `Digits`);
  - `div_255_fast` (`Div255`).
- **VGA driver:**
  - `put_pixel` for the RGB, BGR and 8-bit grey layouts (`PixelBuffer`);
  - the drawing operations of `VGADevice` (`VgaDevice`), with the Bresenham line in `Bresenham`.
- **Real-time clock:** `Rtc`.
- **Processes:** the round-robin scheduler (`Scheduling`) and thread state changes (`Threads`).
- **ATA driver:**
  - the register flags and error conversions (`AtaConstants`);
  - the bus with its LBA28 task file (`AtaBus`);
  - disks and their MBR partition table (`AtaDisk`);
  - partitions (`AtaPartition`).
- **In-kernel debugger:** `ikd`, modelled in `Debugger`.

How the outside world enters the model:

- Port I/O becomes an append-only trace of `PortWrite`s on the bus.
- What the hardware answers is a parameter. `IdentifyResponse` and `TransferResponse` stand for the status polling and the data read.
- Memory read by the debugger is a function `nat -> Byte`.
- The RTC register reads are a sequence of samples.

## Model

| member | source | states |
|---|---|---|
| Bits.TrailingOnes | kernel/src/memory/frame_allocator.rs:302-326 | On a word that is not `u64::MAX`, `trailing_ones` is the position of the lowest clear bit: that bit is clear and every bit below it is set |
| Bits.FirstClearFrom | kernel/src/memory/frame_allocator.rs:302-326 | The lowest clear bit at or after a position; every bit between is set |
| Bits.BitOfSetBit | kernel/src/memory/frame_allocator.rs:198-207 | `|=` / `&= !` on bit `n` gives bit `n` the new value and leaves every other bit of the bitmap as it was |
| Bits.Fill | kernel/src/memory/frame_allocator.rs:164-166 | `[a..][..n].fill(v)` replaces exactly the words `a..a+n` by `v` and keeps the rest |
| Bits.ZerosNoneIffFull | kernel/src/memory/frame_allocator.rs:403-415 | A bitmap's `count_zeros` sum is zero exactly when every word is `u64::MAX` |
| Bits.ZerosSetBit | kernel/src/memory/frame_allocator.rs:209-210 | Setting a clear bit lowers the zero count by one; clearing a set bit raises it by one |
| Bits.ZerosFill | kernel/src/memory/frame_allocator.rs:168-171 | Filling a block of words changes the zero count by the block's old count against `n` copies of the new word's |
| FrameAllocatorSpec.FrameInBlock | kernel/src/memory/frame_allocator.rs:198-207 | 4 KiB frame `f` lies in 2 MiB frame `f / 512`, whose eight words contain `f`'s word |
| FrameAllocatorSpec.SetUsed | kernel/src/memory/frame_allocator.rs:145-219 | `set_used_lock` returns `None` exactly when the address lies outside the bitmaps, and otherwise a well-formed state |
| FrameAllocatorSpec.SetUnused | kernel/src/memory/frame_allocator.rs:221-288 | `set_unused_lock` returns `None` exactly when the address lies outside the bitmaps, and otherwise a well-formed state |
| FrameAllocatorSpec.FirstNotFull | kernel/src/memory/frame_allocator.rs:304-309 | The scan finds the first word at or after the hint that is not `u64::MAX`; `None` means every word from the hint on is full |
| FrameAllocatorSpec.CandidateInRange | kernel/src/memory/frame_allocator.rs:311-320 | The address an allocation picks lies inside the tracked range, so the `?` after `set_used_lock` never returns early |
| FrameAllocatorSpec.Allocate | kernel/src/memory/frame_allocator.rs:302-354 | The address returned is aligned to the frame size and inside the tracked range; without one the state is unchanged; the new state stays well formed |
| FrameAllocatorSpec.Deallocate | kernel/src/memory/frame_allocator.rs:295-297 | The state stays well formed, and an address outside the tracked range changes nothing |
| FrameAllocatorProperties.SetUsed4kSummaryAt | kernel/src/memory/frame_allocator.rs:181-215 | After a 4 KiB `set_used_lock` every 2 MiB summary bit is set exactly when one of its 512 frames is used |
| FrameAllocatorProperties.SetUsed2mSummaryAt | kernel/src/memory/frame_allocator.rs:147-180 | The same after a 2 MiB `set_used_lock` |
| FrameAllocatorProperties.SetUsedKeepsSummary | kernel/src/memory/frame_allocator.rs:145-219 | `set_used_lock` of either size preserves the summary invariant |
| FrameAllocatorProperties.SetUnused4kSummaryAt | kernel/src/memory/frame_allocator.rs:249-284 | After a 4 KiB `set_unused_lock` the summary bit is cleared exactly when its eight words became all zero |
| FrameAllocatorProperties.SetUnused2mSummaryAt | kernel/src/memory/frame_allocator.rs:223-248 | The same after a 2 MiB `set_unused_lock` |
| FrameAllocatorProperties.SetUnusedKeepsSummary | kernel/src/memory/frame_allocator.rs:221-288 | `set_unused_lock` of either size preserves the summary invariant |
| FrameAllocatorProperties.SetUsedEffect | kernel/src/memory/frame_allocator.rs:145-219 | Within range, exactly the 4 KiB frames covered by the address become used, together with their block's summary bit; every other frame keeps its state |
| FrameAllocatorProperties.SetUnusedEffect | kernel/src/memory/frame_allocator.rs:221-288 | Within range, exactly the covered 4 KiB frames become free; every other frame keeps its state |
| FrameAllocatorProperties.OutOfRangeRejected | kernel/src/memory/frame_allocator.rs:152-155 | Out of range both operations return `None`, and `deallocate_frame` leaves the state unchanged |
| FrameAllocatorProperties.SetUsedKeepsCounts | kernel/src/memory/frame_allocator.rs:168-171 | A `set_used_lock` of free frames (the debug assertion) keeps both counters equal to the number of clear bits |
| FrameAllocatorProperties.SetUnused4kKeepsCounts | kernel/src/memory/frame_allocator.rs:262-283 | A 4 KiB `set_unused_lock` of a used frame keeps both counters equal to the clear bits |
| FrameAllocatorProperties.SetUnused2mCounts | kernel/src/memory/frame_allocator.rs:240-247 | After a 2 MiB `set_unused_lock` the counters are right exactly when all 512 frames were used before, because the 4 KiB counter always grows by 512 |
| FrameAllocatorProperties.AllocateFirstFit | kernel/src/memory/frame_allocator.rs:302-354 | `allocate_frame` returns the size-aligned address of the lowest clear bit at or after the hint's word and marks it used; it returns `None`, with the state unchanged, only when every bit from the hint's word on is set |
| FrameAllocatorProperties.AllocateLowestFree | kernel/src/memory/frame_allocator.rs:302-354 | With sound hints the returned frame is the lowest free frame of the whole bitmap |
| FrameAllocatorProperties.NothingFoundMeansExhausted | kernel/src/memory/frame_allocator.rs:322-325 | With sound hints, a failed scan means no frame of that size is free, so the debug assertion `free == 0` holds |
| FrameAllocatorProperties.FreeBlockCounted | kernel/src/memory/frame_allocator.rs:331-354 | A clear summary bit means all eight words of its block are zero, so at least 512 4 KiB frames are counted free |
| FrameAllocatorProperties.AllocateAllowedHolds | kernel/src/memory/frame_allocator.rs:302-354 | Under the invariants, every debug assertion reached by `allocate_frame` holds |
| FrameAllocatorProperties.AllocateKeepsHints | kernel/src/memory/frame_allocator.rs:173-179 | After an allocation every word below each hint is still full |
| FrameAllocatorProperties.AllocateKeepsInvariants | kernel/src/memory/frame_allocator.rs:302-354 | Allocation preserves the summary invariant, the counters and the hints together |
| FrameAllocatorProperties.AllocateFreeMemory | kernel/src/memory/frame_allocator.rs:395-397 | A successful allocation lowers `get_free_memory_size` by exactly the frame's size; a failed 4 KiB allocation means it is 0 |
| FrameAllocatorProperties.LargeFrameAtomic | kernel/src/memory/frame_allocator.rs:331-354 | A 2 MiB allocation takes a block whose 512 frames were all free and marks all of them used |
| FrameAllocatorProperties.AllocateTakesFreeFrames | kernel/src/memory/frame_allocator.rs:302-354 | Every 4 KiB frame an allocation hands out was free before and is used after |
| FrameAllocatorProperties.SetUsedThenUnused4k | kernel/src/memory/frame_allocator.rs:145-288 | Marking a free 4 KiB frame used with `set_used_lock` and then free with `set_unused_lock` gives back both bitmaps and both free counters |
| FrameAllocatorProperties.SetUsedThenUnused2m | kernel/src/memory/frame_allocator.rs:145-288 | The same round trip for a free 2 MiB frame, whose 512 small frames are all filled and then all cleared |
| FrameAllocatorProperties.CoveredFrame | kernel/src/memory/frame_allocator.rs:145-219 | Every byte of an allocated frame lies in a 4 KiB frame the allocation covers |
| FrameAllocatorProperties.AllocationsDisjoint | kernel/src/memory/frame_allocator.rs:302-354 | Two allocations in a row, of any sizes, return frames that do not overlap |
| FrameAllocatorProperties.DeallocateKeepsInvariants | kernel/src/memory/frame_allocator.rs:295-297 | `deallocate_frame` preserves the summary invariant and sound hints |
| FrameAllocatorProperties.RoundTrip4k | kernel/src/main.rs:160-167 | Allocating a 4 KiB frame and releasing it restores both bitmaps and both counters, and keeps the hints sound |
| FrameAllocatorProperties.RoundTrip2m | kernel/src/main.rs:170-177 | Allocating a 2 MiB frame and releasing it restores both bitmaps and both counters, and keeps the hints sound |
| FramePlacement.SplitAtLow | kernel/src/memory/frame_allocator.rs:40-63 | A region's part below the low-memory limit and its part above add up to the whole region |
| FramePlacement.UsableSplit | kernel/src/memory/frame_allocator.rs:35-49 | Low usable memory plus the usable memory above the limit is `total_usable_memory` |
| FramePlacement.AlignUp2MiB | kernel/src/memory/frame_allocator.rs:380-386 | `align_up(2 MiB)` is the least multiple of 2 MiB at or above the address |
| FramePlacement.GetBitflagFrames | kernel/src/memory/frame_allocator.rs:360-388 | The 4 KiB bitmap gets a 2 MiB-aligned frame and the 2 MiB bitmap a 4 KiB-aligned one, both at or above the start |
| FramePlacement.UnalignedGap | kernel/src/memory/frame_allocator.rs:380-386 | In the third placement case the 2 MiB frame starts at least two pages above the start |
| FramePlacement.PlacementSound | kernel/src/memory/frame_allocator.rs:360-388 | `get_bitflag_frames` returns two frames aligned to their sizes, at or above the start, not overlapping. They fit in the 2 MiB + 4 KiB after the start exactly in the first two cases; otherwise they end below start + 4 MiB |
| FramePlacement.ChooseRegionAsWritten | kernel/src/memory/frame_allocator.rs:54-63 | The first usable region whose part above the limit is at least 2 MiB + 4 KiB, or `None` exactly when there is none |
| FramePlacement.RegionOverrunAsWritten | kernel/src/memory/frame_allocator.rs:54-74 | A region that passes the filter as written, yet the bitmaps placed in it run past its end |
| FramePlacement.ChooseRegion | kernel/src/memory/frame_allocator.rs:54-74 | The first usable region that holds both placed bitmaps, or `None` exactly when there is none |
| FramePlacement.ChosenRegionHoldsBitmaps | kernel/src/memory/frame_allocator.rs:71-74 | With the corrected filter both bitmaps lie inside the chosen region and at or above the low-memory limit |
| FramePlacement.FitsImpliesFitsAsWritten | kernel/src/memory/frame_allocator.rs:54-63 | The corrected filter only ever drops regions: every region it accepts passes the written filter |
| FramePlacement.RangeReleased | kernel/src/memory/frame_allocator.rs:106-124 | Every frame of a page-aligned range inside a usable region, at or above the limit, is one the free loop releases |
| FramePlacement.ReleasedInMember | kernel/src/memory/frame_allocator.rs:106-124 | A frame released for one region of the map is released for the map |
| FrameInit.Initial | kernel/src/memory/frame_allocator.rs:91-103 | The state after both bitmaps are filled with `u64::MAX` is well formed and has the source's bitmap sizes |
| FrameInit.InitialSound | kernel/src/memory/frame_allocator.rs:91-103 | Before the free loop every frame is used, the counters are zero and every invariant holds |
| FrameInit.StartFreed | kernel/src/memory/frame_allocator.rs:106-124 | Before the loop no frame has been released |
| FrameInit.ReleaseStep | kernel/src/memory/frame_allocator.rs:112-123 | Each frame the loop releases is in range and still used, so `set_unused_lock` succeeds (the `expect`) and its debug assertion holds; the invariants are kept |
| FrameInit.SkipStep | kernel/src/memory/frame_allocator.rs:112-118 | A frame below the low-memory limit is skipped and nothing changes |
| FrameInit.RegionDone | kernel/src/memory/frame_allocator.rs:106-124 | At the end of a region the loop goes on with the next one |
| FrameInit.AllRegionsDone | kernel/src/memory/frame_allocator.rs:106-124 | After the loop a frame is used exactly when no usable region above the limit contains it |
| FrameInit.AllFreeBlockZero | kernel/src/memory/frame_allocator.rs:269-281 | A 2 MiB frame whose 512 frames are all free has all eight words zero |
| FrameInit.LargeStorageReleased | kernel/src/memory/frame_allocator.rs:127-134 | Every frame of the 2 MiB frame holding the 4 KiB bitmap was released by the loop |
| FrameInit.MarkLargeStorage | kernel/src/memory/frame_allocator.rs:127-130 | Re-marking the 4 KiB bitmap's 2 MiB frame is in range and allowed |
| FrameInit.MarkSmallStorage | kernel/src/memory/frame_allocator.rs:131-134 | Re-marking the 2 MiB bitmap's 4 KiB frame afterwards is in range and allowed, since it lies outside the large frame |
| FrameInit.SetUsedKeepsOldHints | kernel/src/memory/frame_allocator.rs:145-219 | Setting bits never un-fills a full word, so hints that were sound stay sound if put back |
| FrameInit.MarkTwiceKeepsHints | kernel/src/memory/frame_allocator.rs:127-134 | Marking the two storage frames and putting back the hints keeps the hints sound |
| FrameInit.MarkTwiceEffect | kernel/src/memory/frame_allocator.rs:127-134 | Marking the two storage frames adds exactly their frames to the used ones |
| FrameInit.StorageMarked | kernel/src/memory/frame_allocator.rs:127-134 | After re-marking, every invariant holds; a frame is used exactly when it was never released or holds a bitmap |
| FrameInit.HintExample | kernel/src/memory/frame_allocator.rs:212-214 | A small well-formed state with free frames 0 and 127 |
| FrameInit.SetUsedHintSkipsFreeFrame | kernel/src/memory/frame_allocator.rs:212-214 | As written, a direct 4 KiB `set_used_lock` moves the hint past a free frame. The next 4 KiB allocation returns `None` although 4096 bytes are free, and its debug assertion fails |
| FrameAllocator.FillWords | kernel/src/memory/frame_allocator.rs:164-166 | The array after the in-place fill is `Fill` of the array before it |
| FrameAllocator.ScanWords | kernel/src/memory/frame_allocator.rs:304-309 | The scan stops at the first word from the hint that is not `u64::MAX`, or at the end; every word it passes is full |
| FrameAllocator.ScanIsFirstNotFull | kernel/src/memory/frame_allocator.rs:304-309 | The scan loop stops where `FirstNotFull` says |
| FrameAllocator.BitmapFrameAllocator.Init | kernel/src/memory/frame_allocator.rs:31-143 | `init` with the corrected region filter and hint restore (Findings 1 and 3): computes the totals, creates fresh bitmaps of the source's sizes and establishes every invariant (summary, counters, hints). A frame is used exactly when no usable region above the limit contains it, or it holds a bitmap |
| FrameAllocator.BitmapFrameAllocator.New | kernel/src/memory/frame_allocator.rs:31-74 | `None` exactly when no region holds both bitmaps (the corrected filter of Finding 1: a superset of the inputs where the kernel's `unwrap` panics, by `FitsImpliesFitsAsWritten`); otherwise an allocator with the invariants, totals and used frames `Init` promises |
| FrameAllocator.BitmapFrameAllocator.ReleaseRegions | kernel/src/memory/frame_allocator.rs:104-124 | The free loop keeps every invariant and the totals, and afterwards a 4 KiB frame is used exactly when no usable region above the limit contains it |
| FrameAllocator.BitmapFrameAllocator.ReleaseRegion | kernel/src/memory/frame_allocator.rs:106-124 | One region's pass of the free loop keeps the invariants and releases exactly that region's frames on top of the earlier ones |
| FrameAllocator.BitmapFrameAllocator.MarkStorage | kernel/src/memory/frame_allocator.rs:127-134 | The re-marking at the end of `init`, with the hints restored afterwards (Finding 3): keeps the invariants and adds exactly the storage frames to the used ones |
| FrameAllocator.BitmapFrameAllocator.SetUsedLock | kernel/src/memory/frame_allocator.rs:145-219 | `Some` exactly in range; the new state is `SetUsed` of the old one, and out of range nothing changes |
| FrameAllocator.BitmapFrameAllocator.SetUsed2m | kernel/src/memory/frame_allocator.rs:147-180 | The 2 MiB branch reaches `SetUsed` of the old state |
| FrameAllocator.BitmapFrameAllocator.SetUsed4k | kernel/src/memory/frame_allocator.rs:181-215 | The 4 KiB branch reaches `SetUsed` of the old state |
| FrameAllocator.BitmapFrameAllocator.SetUnusedLock | kernel/src/memory/frame_allocator.rs:221-288 | `Some` exactly in range; the new state is `SetUnused` of the old one, and out of range nothing changes |
| FrameAllocator.BitmapFrameAllocator.SetUnused2m | kernel/src/memory/frame_allocator.rs:223-248 | The 2 MiB branch reaches `SetUnused` of the old state |
| FrameAllocator.BitmapFrameAllocator.SetUnused4k | kernel/src/memory/frame_allocator.rs:249-284 | The 4 KiB branch reaches `SetUnused` of the old state |
| FrameAllocator.BitmapFrameAllocator.DeallocateFrame | kernel/src/memory/frame_allocator.rs:295-297 | The new state is `Deallocate` of the old one |
| FrameAllocator.BitmapFrameAllocator.AllocateFrame | kernel/src/memory/frame_allocator.rs:302-354 | The returned address and the new state are `Allocate` of the old state, so every property of `Allocate` carries over |
| FrameAllocator.BitmapFrameAllocator.GetFree4kFrames | kernel/src/memory/frame_allocator.rs:403-415 | The counter equals the number of clear bits of the 4 KiB bitmap |
| FrameAllocator.BitmapFrameAllocator.GetFree2mFrames | kernel/src/memory/frame_allocator.rs:417-429 | The counter equals the number of clear bits of the 2 MiB bitmap |
| FrameAllocator.BitmapFrameAllocator.GetFreeMemorySize | kernel/src/memory/frame_allocator.rs:395-397 | Free memory is 4096 times the clear bits of the 4 KiB bitmap |
| SizeFormat.Thresholds | internal_utils/src/display/mod.rs:9-12 | A size at or above `t` units has at least `t` of them, so each threshold can be read in units |
| SizeFormat.DisplayScale | internal_utils/src/display/mod.rs:7-14 | The unit is the largest with at least 4 of it (bytes below 4 KiB), and the amount is the size truncated to that unit |
| SizeFormat.DisplayScaleIsLargestUnit | internal_utils/src/display/mod.rs:7-14 | `format_size` shows the size, truncated, in the largest unit of which there are at least 4 |
| SizeFormat.ReportScaleIsLargestUnit | internal_utils/src/kernel_information/frame_allocator.rs:50-81 | The frame-memory report shows each size, truncated, in the largest unit of which there are at least 2 |
| SizeFormat.DisplayAmountRange | internal_utils/src/display/mod.rs:7-14 | The amount `format_size` shows is 4..4095 in KiB or MiB, at least 4 in GiB, below 4096 in bytes |
| SizeFormat.ReportAmountRange | internal_utils/src/kernel_information/frame_allocator.rs:50-81 | The amount in the report is 2..2047 in KiB or MiB, at least 2 in GiB, below 2048 in bytes |
| SizeFormat.RulesAgreeAtTheEnds | internal_utils/src/kernel_information/frame_allocator.rs:50-64 | Below 2 KiB and from 4 GiB on both rules agree; in between the report switches unit earlier |
| SizeFormat.FirstSpace | internal_utils/src/display/mod.rs:9-12 | The index of the first space in the text, with no space before it |
| SizeFormat.RenderRoundTrip | internal_utils/src/display/mod.rs:9-12 | `"{} {unit}"` reads back as the amount and unit it was made from |
| SizeFormat.FormatSize | internal_utils/src/display/mod.rs:7-14 | `format_size`'s text reads back as the truncated amount in the largest unit with at least 4 of it |
| Div255.NoOverflowBound | internal_utils/src/lib.rs:41-45 | `x + 257` fits a `u16` exactly up to the largest input the function admits |
| Div255.Div255WideExact | internal_utils/src/lib.rs:41-45 | On its whole domain the shift trick equals `x / 255` |
| Div255.Div255Fast | internal_utils/src/lib.rs:41-45 | `div_255_fast(x) == x / 255`, at most 255, so the `as u8` cast loses nothing |
| Div255.Div255FastMonotone | internal_utils/src/lib.rs:41-45 | `div_255_fast` is monotone |
| Digits.Numeral | internal_utils/src/display/hex_number.rs:69-78 | `{}` / `{:X}` writes digits only, and a single "0" for zero |
| Digits.NumeralRoundTrip | internal_utils/src/display/hex_number.rs:69-78 | Reading a written numeral back gives the number |
| Digits.NumeralLength | internal_utils/src/display/hex_number.rs:69-78 | A numeral has at most `k` digits exactly when the number is below `base^k` |
| Digits.ParseNumeralDefined | internal_utils/src/ikd.rs:99-101 | Reading a numeral succeeds exactly when the text is non-empty and every character is a digit below the base |
| Digits.PadLeft | internal_utils/src/display/hex_number.rs:12-21 | `{:w}` / `{:0w}` right-aligns in a field of width `w` and never truncates |
| Digits.ParsePadded | internal_utils/src/display/hex_number.rs:12-21 | A zero-padded numeral reads back as its number, whatever the width |
| Digits.FixedHex | internal_utils/src/display/hex_number.rs:22-32 | Exactly `n` hexadecimal digits of `v mod 16^n`, most significant first |
| Digits.ZeroPaddedIsFixed | internal_utils/src/display/hex_number.rs:12-21 | `{:0nX}` of a value below `16^n` is its `n` fixed digits |
| Digits.FixedHexRoundTrip | internal_utils/src/display/hex_number.rs:22-32 | `n` fixed digits read back as `v mod 16^n` |
| Digits.FixedHexSplit | internal_utils/src/display/hex_number.rs:22-32 | Fixed digits split into the shifted top part and the masked bottom part |
| HexNumber.Digits16 | internal_utils/src/display/hex_number.rs:12-78 | The sixteen-character digit field of each source type |
| HexNumber.Grouped | internal_utils/src/display/hex_number.rs:12-21 | Four groups of four joined by `_`: 19 characters from 16 |
| HexNumber.SeparatedHex | internal_utils/src/display/hex_number.rs:12-78 | `to_separated_hex` has the prefix, then 19 characters |
| HexNumber.NumeralWidth | internal_utils/src/display/hex_number.rs:69-78 | A 64-bit value has at most 16 hexadecimal digits, at most 15 exactly below 2^60 |
| HexNumber.AddressDigits | internal_utils/src/display/hex_number.rs:12-54 | For addresses the digit field is the value's 16 fixed digits |
| HexNumber.FixedHexGroups | internal_utils/src/display/hex_number.rs:22-32 | The four logged groups are the fixed digits of the shifted and masked value |
| HexNumber.LoggedMatchesSeparated | internal_utils/src/display/hex_number.rs:12-65 | For `PhysAddr`, `VirtAddr` and pointers, what `log_to_separated_hex` logs is exactly `to_separated_hex` |
| HexNumber.PlainMatchesLoggedIffWide | internal_utils/src/display/hex_number.rs:69-89 | For `u64` the two agree exactly when the value is at least 2^60 |
| HexNumber.PlainLeadingSpace | internal_utils/src/display/hex_number.rs:69-78 | `u64` values below 2^60 are padded with spaces, not zeros |
| HexNumber.SeparatedHexRoundTrip | internal_utils/src/display/hex_number.rs:12-54 | An address's text, without prefix and underscores, reads back as the value |
| HexNumber.UngroupedDigits | internal_utils/src/display/hex_number.rs:12-21 | Removing the three separators gives the sixteen digits back |
| PixelBuffer.BlendBound | drivers/vga/src/pixel_buffer.rs:75-79 | The grey blend of three bytes is at most 255 * 255, inside `div_255_fast`'s domain |
| PixelBuffer.Blend | drivers/vga/src/pixel_buffer.rs:75-79 | The weighted sum is at most 255 * 255 |
| PixelBuffer.BlendGrayEnds | drivers/vga/src/pixel_buffer.rs:75-79 | Transparent keeps the old grey, opaque stores the new one, and any blend lies between the two |
| PixelBuffer.PixelBuffer.Put | drivers/vga/src/pixel_buffer.rs:14-81 | `put_pixel` changes no byte outside the pixel's slot |
| PixelBuffer.PixelBuffer.Seen | drivers/vga/src/pixel_buffer.rs:21-30 | The colour read from the slot; alpha 255 when there is no alpha byte |
| PixelBuffer.PixelBuffer.PutPixel | drivers/vga/src/pixel_buffer.rs:14-81 | The frame buffer after the call is `Put` of the one before |
| PixelBuffer.PixelBuffer.PutLayout | drivers/vga/src/pixel_buffer.rs:32-64 | RGB stores red, green, blue at +0..+2, BGR the reverse; alpha at +3 only with four bytes per pixel |
| PixelBuffer.PixelBuffer.PutGray | drivers/vga/src/pixel_buffer.rs:68-81 | A grey pixel: transparent colours change nothing, opaque ones store their grey |
| PixelBuffer.PixelBuffer.PaintAll | drivers/vga/src/vga_device.rs:54-59 | `put_pixel` for each dot in turn; the buffer keeps its length |
| PixelBuffer.PixelBuffer.PaintAllAppend | drivers/vga/src/vga_device.rs:174-179 | Painting two runs in turn is painting their concatenation |
| PixelBuffer.PixelBuffer.PaintAllElsewhere | drivers/vga/src/vga_device.rs:54-59 | Only the slots of painted dots change |
| Bresenham.LinePoints | drivers/vga/src/vga_device.rs:61-129 | The line has one point per step of its longer axis plus one, and starts at the first end point |
| Bresenham.LineOffsets | drivers/vga/src/vga_device.rs:94-128 | The minor-axis offsets move by 0 or 1 and end at the minor distance |
| Bresenham.LineEnds | drivers/vga/src/vga_device.rs:61-129 | The last point drawn is the second end point |
| Bresenham.LineSteps | drivers/vga/src/vga_device.rs:94-128 | Each step moves the major coordinate one towards its target and the minor one by 0 or 1 towards its target |
| Bresenham.XMajorStep | drivers/vga/src/vga_device.rs:94-110 | One pass of the X-major loop: `x` moves one step, `y` moves exactly when the decision value is non-negative, the decision value moves by `ai` or `bi`, and the point reached is the line's next point |
| Bresenham.YMajorStep | drivers/vga/src/vga_device.rs:112-127 | The same for the Y-major loop, with the axes swapped |
| Bresenham.LineInBox | drivers/vga/src/vga_device.rs:61-129 | No point leaves the box spanned by the two end points |
| Bresenham.LineOfOnePoint | drivers/vga/src/vga_device.rs:61-129 | A line from a point to itself is that point alone |
| VgaDevice.MeasureWithinLimit | drivers/vga/src/vga_device.rs:229-248 | Measuring never ends beyond the width when it starts within it |
| VgaDevice.GlyphsWithinLimit | drivers/vga/src/vga_device.rs:193-227 | With room for one glyph after the reset column, no glyph crosses the width |
| VgaDevice.WholeLines | drivers/vga/src/vga_device.rs:193-248 | Text only moves the cursor down, by whole 16-pixel lines |
| VgaDevice.MeasureDiffersFromDraw | drivers/vga/src/vga_device.rs:193-248 | `measure_string` wraps after advancing and `draw_string` before drawing, so "ab" in a width of 10 ends at (0,16) versus (8,16) |
| VgaDevice.UnpackRoundTrip | drivers/vga/src/vga_device.rs:252-263 | Unpacking an image pixel keeps bits 0..23 as blue, green, red and is opaque |
| VgaDevice.VgaDevice.PointDots | drivers/vga/src/vga_device.rs:54-59 | One dot per point, at `y * stride + x` |
| VgaDevice.VgaDevice.DrawPoint | drivers/vga/src/vga_device.rs:54-59 | The buffer is `Put` at `y * stride + x` of the old one |
| VgaDevice.VgaDevice.DrawLine | drivers/vga/src/vga_device.rs:61-129 | The buffer is the old one painted with `LinePoints`, in order |
| VgaDevice.VgaDevice.DrawAlongX | drivers/vga/src/vga_device.rs:94-110 | The X-major loop paints the rest of `LinePoints` |
| VgaDevice.VgaDevice.DrawAlongY | drivers/vga/src/vga_device.rs:111-128 | The Y-major loop paints the rest of `LinePoints` |
| VgaDevice.VgaDevice.DrawRectangle | drivers/vga/src/vga_device.rs:174-179 | The buffer is painted with the four lines top, bottom, left, right |
| VgaDevice.VgaDevice.RunDots | drivers/vga/src/vga_device.rs:181-189 | Indices 0 .. n-1 in order |
| VgaDevice.VgaDevice.FillRectangle | drivers/vga/src/vga_device.rs:181-189 | The buffer is painted at indices 0 .. w*h-1, whatever `x`, `y` and the stride |
| VgaDevice.VgaDevice.Clear | drivers/vga/src/vga_device.rs:46-50 | `fill_rectangle` over the width and height truncated to `u16` |
| VgaDevice.VgaDevice.ImageDots | drivers/vga/src/vga_device.rs:252-263 | One dot per image pixel, moved by the origin |
| VgaDevice.VgaDevice.DrawImage | drivers/vga/src/vga_device.rs:252-263 | The buffer is painted with the image's dots in order |
| VgaDevice.VgaDevice.MeasureString | drivers/vga/src/vga_device.rs:229-248 | The end position is `Measure` with the width truncated to `u16` |
| VgaDevice.VgaDevice.DrawString | drivers/vga/src/vga_device.rs:193-227 | The end position and every glyph origin are those of `DrawText` |
| Rtc.BcdToBinary | internal_utils/src/clocks/rtc.rs:163-165 | The shifts compute ten times the high nibble plus the low one, at most 165 |
| Rtc.Mask7 | internal_utils/src/clocks/rtc.rs:114-121 | Clearing the PM bit leaves a value below 128 |
| Rtc.BcdRoundTrip | internal_utils/src/clocks/rtc.rs:163-165 | On valid BCD the decoding is the decimal value and BCD encoding inverts it |
| Rtc.DecodeBinary | internal_utils/src/clocks/rtc.rs:76-138 | In binary 24-hour mode the registers are taken as they are, the year offset by 2000 |
| Rtc.Decode | internal_utils/src/clocks/rtc.rs:111-137 | The year is 2000 plus a byte; in 24-hour mode or without the PM bit the hour is its register's value, and PM adds 12 to a non-zero hour |
| Rtc.DecodeBcd | internal_utils/src/clocks/rtc.rs:114-137 | In BCD mode every field is its register's decimal value, the year 2000..2099 |
| Rtc.DecodeMorning | internal_utils/src/clocks/rtc.rs:111-128 | Without the PM bit, a 12-hour reading's hour is the register's |
| Rtc.TwelveAsWritten | internal_utils/src/clocks/rtc.rs:123-128 | As written, 12 PM (`0x92`) decodes to hour 24 and 12 AM (`0x12`) to hour 12 |
| Rtc.Hour24Bijective | internal_utils/src/clocks/rtc.rs:123-128 | The corrected conversion maps 1..12 AM/PM one-to-one onto 0..23 |
| Rtc.CorrectedDiffersAtTwelve | internal_utils/src/clocks/rtc.rs:123-128 | The written and corrected conversions differ only at hour 12 |
| Rtc.DecodeCorrected | internal_utils/src/clocks/rtc.rs:111-137 | Only the hour differs from `Decode`, only in 12-hour mode, where it is the corrected 24-hour conversion |
| Rtc.CorrectedHourInRange | internal_utils/src/clocks/rtc.rs:111-128 | With valid 12-hour registers the corrected hour is 0..23 |
| Rtc.FirstStable | internal_utils/src/clocks/rtc.rs:84-109 | The first sample equal to the one before it; all earlier ones differ from their predecessor |
| Rtc.RtcController.GetCurrentTime | internal_utils/src/clocks/rtc.rs:76-138 | The time decoded, with the corrected hour, from the first sample that repeats the previous one |
| Rtc.CurrentTime | internal_utils/src/clocks/rtc.rs:33-47 | The controller's reading, or all zeros before the RTC is initialised |
| Rtc.RenderLength | internal_utils/src/clocks/rtc.rs:153-161 | The text is 19 characters exactly when every field fits its width |
| Rtc.RenderRoundTrip | internal_utils/src/clocks/rtc.rs:153-161 | Every time whose fields fit reads back from its text |
| Rtc.DecodedRenders | internal_utils/src/clocks/rtc.rs:114-161 | A decoded year always fits four digits; with valid BCD and the corrected hour the whole text is 19 characters |
| Scheduling.FirstReady | kernel/src/processes/scheduler.rs:77-80 | The queue position of the first process with a ready thread; every process before it has none |
| Scheduling.RotatedPermutes | kernel/src/processes/scheduler.rs:81-84 | Moving one process to the back keeps the same processes, with the same counts and the order of the others |
| Scheduling.RoundRobin | kernel/src/processes/scheduler.rs:71-87 | While every process has a ready thread, `schedule` on the queue turned by `n` runs process `n` and leaves the queue turned by `n + 1`, so `|ps|` calls run each process once and restore the queue |
| Scheduling.Scheduler.AddProcess | kernel/src/processes/scheduler.rs:45-49 | The process joins the back of the queue |
| Scheduling.Scheduler.RemoveProcess | kernel/src/processes/scheduler.rs:52-54 | Every entry of the process leaves the queue; the others keep their order and counts |
| Scheduling.Scheduler.TimerTick | kernel/src/processes/scheduler.rs:57-68 | The running thread and its process are charged the ticks since they last ran and remember the tick; nothing else changes |
| Scheduling.Scheduler.GetThreadToRun | kernel/src/processes/scheduler.rs:90-100 | The process's first ready thread, moved to the back of its ready queue; `null` when none is ready |
| Scheduling.Scheduler.Schedule | kernel/src/processes/scheduler.rs:71-87 | The queue becomes `ScheduledQueue` of the old one: the first process with a ready thread goes to the back of the queue, and its first ready thread is returned and rotated; no other process changes |
| Threads.Without | kernel/src/processes/thread.rs:45-53 | The sequence without `x`, others in order |
| Threads.WithoutCounts | kernel/src/processes/thread.rs:45-53 | Removal takes every copy of `x` and keeps every other element as often as before |
| Threads.WithoutAbsent | kernel/src/processes/thread.rs:45-53 | Removing what is absent changes nothing |
| Threads.JoinedOnce | kernel/src/processes/thread.rs:44-70 | After a state change a thread is in a queue at most once |
| Threads.Thread.ChangeState | kernel/src/processes/thread.rs:44-70 | The thread leaves every queue of its process and joins the queue of its new state; it is in a queue exactly when its state is that queue's |
| Threads.Thread.RemoveFromQueues | kernel/src/processes/thread.rs:45-53 | The thread leaves all three queues; the others keep their order |
| Threads.Thread.NewNative | kernel/src/processes/thread.rs:76-102 | The new thread's id is the number of threads the process already queues; it is appended to the not-started queue with its entry point, flags `0x200` and stack pointer |
| Threads.Thread.TickDensity | kernel/src/processes/thread.rs:38-41 | `None` exactly where the `u64` subtraction underflows or the division is by zero (current tick at or before the start tick); otherwise the percentage of the elapsed ticks spent running, rounded down |
| Threads.TickDensityBounds | kernel/src/processes/thread.rs:38-41 | A thread that ran at most the elapsed ticks has density at most 100; one that ran all of them, exactly 100 |
| Threads.TickDensityMonotone | kernel/src/processes/thread.rs:38-41 | Of two threads started at the same tick, the one that ran longer has at least the other's density |
| AtaConstants.ErrorToDeviceError | drivers/ata/src/constants.rs:55-68 | A register equal to one retryable flag gives `Retry`, to one bad-sector flag gives `BadSector`, anything else `Unknown` with its bits; never `OutOfRange` or `TooManyPartitions` |
| AtaConstants.ClassifiedFlagsAreSingleBits | drivers/ata/src/constants.rs:35-52 | Each classified flag is one bit of the register |
| AtaConstants.CombinationsAreUnknown | drivers/ata/src/constants.rs:55-68 | An empty register, or two flags at once, is reported as `Unknown` |
| AtaConstants.BusErrorRoundTrip | drivers/ata/src/constants.rs:70-95 | Wrapping a block-device error and converting back is the identity; wrapping a register applies the flag rule |
| AtaBus.DiskName | drivers/ata/src/bus.rs:284-291 | The name starts with `ATA `, names the primary bus exactly for the primary bus and ends in `Master` exactly for the master drive |
| AtaBus.CheckLba | drivers/ata/src/bus.rs:188-198 | As written, an address passes exactly when it is at most the LBA28 capacity; beyond it only a larger LBA48 capacity lets it through, as LBA48 |
| AtaBus.CheckLbaAcceptsCapacity | drivers/ata/src/bus.rs:188 | The written check accepts the sector just past the LBA28 capacity |
| AtaBus.CheckLbaCorrected | drivers/ata/src/bus.rs:188-198 | With `>=`, exactly the sectors below the capacity pass |
| AtaBus.CheckLbaDifference | drivers/ata/src/bus.rs:188-198 | The two checks differ only at the capacity itself |
| AtaBus.TaskFile | drivers/ata/src/bus.rs:205-212 | Seven register writes, the command last |
| AtaBus.Lba28Digits | drivers/ata/src/bus.rs:199-203 | The three low bytes and the head nibble carry the low 28 bits of the address |
| AtaBus.DriveHeadFields | drivers/ata/src/bus.rs:199-212 | The drive select bits and the head nibble do not overlap |
| AtaBus.DriveHeadRead | drivers/ata/src/bus.rs:199-206 | The low nibble of the drive/head byte is bits 24..27 of the address, and bit 4 is clear exactly for the master drive |
| AtaBus.TaskFileRoundTrip | drivers/ata/src/bus.rs:199-212 | The drive reads back the drive, the address modulo 2^28 and the command |
| AtaBus.TaskFileExact | drivers/ata/src/bus.rs:199-212 | Below 2^28 the address reads back exactly |
| AtaBus.ClassifyIdentifyErrorCases | drivers/ata/src/bus.rs:121-137 | Only an aborted identify is told apart by its signature; a failure is never a missing bus or device |
| AtaBus.IdentifyOutcome | drivers/ata/src/bus.rs:114-180 | A floating bus is `BusNotConnected`, a zero status `NoDevice`, a failed wait before the command `Unknown`; ATAPI, SATA and non-ATA come only from a failed wait after it; success is exactly no failure, with the parsed descriptor |
| AtaBus.IdentifySuccessWrites | drivers/ata/src/bus.rs:147-157 | A successful identify wrote the drive selection and the IDENTIFY command, nothing else |
| AtaBus.WriteSuccessWrites | drivers/ata/src/bus.rs:244-258 | A successful write sent the task file, the data and a CACHE FLUSH, in that order |
| AtaBus.Bus.constructor | drivers/ata/src/bus.rs:41-60 | Nothing cached and nothing written |
| AtaBus.Bus.Identify | drivers/ata/src/bus.rs:114-180 | A cached descriptor is returned without writing; otherwise the identify writes are appended, and a success is cached |
| AtaBus.Bus.SendTaskFile | drivers/ata/src/bus.rs:205-212 | Appends exactly the task file |
| AtaBus.Bus.ReadSector | drivers/ata/src/bus.rs:182-219 | With the corrected range check `>=` (Finding 4): a refused address gives `OutOfRange` and no write; otherwise the task file is written and the response decides the result |
| AtaBus.Bus.WriteSector | drivers/ata/src/bus.rs:221-262 | With the corrected range check `>=` (Finding 4): a refused address gives `OutOfRange` and no write; otherwise the task file, data and flush are written as the response allows |
| AtaPartition.PartitionLba | drivers/ata/src/partition.rs:16-31 | `OutOfRange` exactly past the partition's length; otherwise a sector inside the partition's window, at the address's offset from its start |
| AtaPartition.PartitionWindow | drivers/ata/src/partition.rs:16-31 | Every sector of the window is reached, each from exactly one address |
| AtaPartition.PartitionsApart | drivers/ata/src/partition.rs:16-31 | A partition ending before another starts never reaches its sectors |
| AtaPartition.CreatedPartitionApart | drivers/ata/src/disk.rs:51-58 | A partition placed by `create_partition` shares no sector with an existing one, unless the start wraps |
| AtaPartition.Partition.ReadSector | drivers/ata/src/partition.rs:16-22 | Past the length `OutOfRange` and no disk access; otherwise the disk's read at the shifted address |
| AtaPartition.Partition.WriteSector | drivers/ata/src/partition.rs:24-31 | Past the length `OutOfRange` and nothing written; otherwise the disk's write at the shifted address |
| AtaDisk.Entry | drivers/ata/src/disk.rs:43-46 | A 16-byte entry of the table |
| AtaDisk.Accepted | drivers/ata/src/disk.rs:43-46 | At most four descriptors, those `from_bytes` accepts |
| AtaDisk.AcceptedMembers | drivers/ata/src/disk.rs:43-46 | A descriptor is listed exactly when some entry decodes to it |
| AtaDisk.AcceptedFull | drivers/ata/src/disk.rs:47-49 | Four descriptors come out exactly when all four entries are accepted |
| AtaDisk.GetPartitions | drivers/ata/src/disk.rs:23-35 | The read error, or at most four descriptors, four exactly when every entry is accepted |
| AtaDisk.HasBootloader | drivers/ata/src/disk.rs:119-122 | The read error, or whether sector 0 ends in `55 AA` |
| AtaDisk.MaxEnd | drivers/ata/src/disk.rs:51-58 | The largest partition end, at least every end, 0 for none |
| AtaDisk.LittleEndian32 | drivers/ata/src/disk.rs:61-69 | Four bytes |
| AtaDisk.LittleEndianRoundTrip | drivers/ata/src/disk.rs:61-69 | The bytes read back as the value modulo 2^32 |
| AtaDisk.NewEntry | drivers/ata/src/disk.rs:61-69 | A 16-byte entry |
| AtaDisk.NewEntryFields | drivers/ata/src/disk.rs:61-69 | The new entry has status 0, its type at byte 4, start at 8..12, length at 12..16 |
| AtaDisk.FirstFree | drivers/ata/src/disk.rs:76-85 | The first entry `from_bytes` rejects; every earlier one is accepted |
| AtaDisk.WithEntryBytes | drivers/ata/src/disk.rs:86-87 | Replacing an entry changes its 16 bytes only; the other entries and the boot signature stay |
| AtaDisk.NewMbrTable | drivers/ata/src/disk.rs:37-93 | The written table lists the old partitions plus the new one, and keeps the boot signature |
| AtaDisk.NewStartAfterAll | drivers/ata/src/disk.rs:51-58 | Unless the `u32` wraps, the new partition starts after every existing one |
| AtaDisk.NewStartWraps | drivers/ata/src/disk.rs:51-58 | With a partition ending at `u32::MAX`, the start wraps to sector 0 |
| AtaDisk.FullTableRefused | drivers/ata/src/disk.rs:47-49 | A full table gives `TooManyPartitions` and nothing is written |
| AtaDisk.CreateOutcome | drivers/ata/src/disk.rs:37-93 | A read error is passed on; success exactly when the new entry is placed and accepted and the write-back succeeds, with the accepted descriptor; otherwise `TooManyPartitions`, `Unknown(0)` or the write error |
| AtaDisk.CopyEntry | drivers/ata/src/disk.rs:86-87 | The array after the copy is `WithEntry` of the array before |
| AtaDisk.Disk.ReadSector | drivers/ata/src/disk.rs:101-106 | The bus's read, errors mapped through `to_device_error` |
| AtaDisk.Disk.WriteSector | drivers/ata/src/disk.rs:108-113 | The bus's write, errors mapped through `to_device_error` |
| AtaDisk.Disk.GetPartitionList | drivers/ata/src/disk.rs:23-35 | The accepted descriptors of sector 0, or the read error |
| AtaDisk.Disk.ReadBootSignature | drivers/ata/src/disk.rs:119-122 | Whether sector 0 ends in `55 AA`, or the read error |
| AtaDisk.Disk.CreatePartition | drivers/ata/src/disk.rs:37-93 | Reads sector 0; the result and the writes are those of `CreateOutcome` |
| Debugger.TrimStart | internal_utils/src/ikd.rs:11-22 | A suffix that is empty or starts with a non-space |
| Debugger.TrimEnd | internal_utils/src/ikd.rs:11-22 | A prefix that is empty or ends with a non-space |
| Debugger.TakeWord | internal_utils/src/ikd.rs:11-22 | A prefix without whitespace |
| Debugger.Words | internal_utils/src/ikd.rs:11-22 | Non-empty words without whitespace |
| Debugger.WordsOfJoined | internal_utils/src/ikd.rs:11-22 | Splitting words joined by spaces gives the words back |
| Debugger.FindCommand | internal_utils/src/ikd.rs:11-33 | The first command from `i` whose name prefixes the line; none before it does |
| Debugger.ParseCommand | internal_utils/src/ikd.rs:11-22 | A line whose trimmed text starts with no command name is refused; otherwise the earliest matching command wins, with the words after its name as arguments |
| Debugger.HelpPrefixIsHelp | internal_utils/src/ikd.rs:11-43 | Dispatch is by prefix: `help` followed directly by any word (e.g. `helpx`) runs `help` with that word as its argument |
| Debugger.SplitColon | internal_utils/src/ikd.rs:96-103 | At least one piece, more than one exactly when the text has a `:`, and no piece contains `:` |
| Debugger.SplitColonCount | internal_utils/src/ikd.rs:96-103 | Exactly one more piece than the text has `:` separators |
| Debugger.SplitColonJoin | internal_utils/src/ikd.rs:96-103 | Joining the pieces with `:` gives the text back |
| Debugger.FromStrRadix16 | internal_utils/src/ikd.rs:96-103 | `Some` exactly when the text after one optional `+` is a non-empty string of hex digits whose value is below 2^64, and then that value |
| Debugger.FromStrRadix16RoundTrip | internal_utils/src/ikd.rs:96-103 | A `usize` written in hex reads back as itself, with or without a `+` |
| Debugger.GetFromTo | internal_utils/src/ikd.rs:96-103 | `Some` exactly when there is an argument with a `:` whose first two pieces both parse; the values are theirs, below 2^64 |
| Debugger.GetFromToRoundTrip | internal_utils/src/ikd.rs:96-103 | `{:X}:{:X}` reads back as the two values, whatever follows |
| Debugger.ViewOffsets | internal_utils/src/ikd.rs:51-57 | `view` and `viewp` show the same range, at offset 0 and at the physical-memory offset |
| Debugger.MemoryCommand | internal_utils/src/ikd.rs:45-76 | No argument lists the subcommands, `info` shows memory, `view`/`viewp` give a range (below 2^64, at offset 0 or the physical-memory offset) or ask for one; anything else is invalid |
| Debugger.KernelCommand | internal_utils/src/ikd.rs:82-94 | No argument lists the subcommands, `info` shows kernel information; `kernel` never views memory |
| Debugger.KernelLikeMemory | internal_utils/src/ikd.rs:45-94 | `kernel` reads only its first argument, and answers as `memory` does for every first argument other than `view` and `viewp` |
| Debugger.ReversedRangeReachesDump | internal_utils/src/ikd.rs:45-57 | `memory view 2:1` passes the parser and reaches the dump with `from > to` |
| Debugger.HexColumn | internal_utils/src/ikd.rs:105-129 | Three characters per byte |
| Debugger.CharColumn | internal_utils/src/ikd.rs:105-129 | One character per byte |
| Debugger.DumpLength | internal_utils/src/ikd.rs:105-129 | A dump is four characters per byte plus three per line, with one line per started 16 bytes |
| Debugger.Slice | internal_utils/src/ikd.rs:105-129 | `count` bytes read from `start` on |
| Debugger.ViewMemorySlice | internal_utils/src/ikd.rs:105-129 | With `from > to` the `u64` subtraction `to - from` underflows (`None`); otherwise the text logged is `Dump` of the `to - from + 1` bytes at `from + offset` |
| Debugger.LogByte | internal_utils/src/ikd.rs:110-121 | One pass of the loop: the text logged so far becomes `Dump`'s text for one more byte, and the buffer's open prefix holds the shown characters of the unfinished row |

## Left out

- The frame allocator's raw-pointer materialisation of its bitmaps inside the chosen region is not modelled: `Init` allocates fresh arrays. `ChosenRegionHoldsBitmaps` proves that the placement lies inside the region.
- `LOW_MEMORY_LIMIT` is not defined in any file of this model: it is the parameter `low` of `Init`.
- Debug assertions become preconditions: `SetUsedAllowed`, `SetUnusedAllowed` and `AllocateAllowed`, and the `cfg(debug_assertions)` `assert_eq!`s of the three getters (`GetFree4kFrames`, `GetFree2mFrames`, `GetFreeMemorySize`) become their requires that the counters agree with the bitmaps; these follow from `CountsAgree`, which `Init` establishes and the operations keep under their debug-assertion preconditions. `AllocateAllowedHolds`, `ReleaseStep`, `MarkLargeStorage` and `MarkSmallStorage` prove that they hold where the kernel reaches them.
- `init`'s `expect` and the double release it guards against become the preconditions `ReleasesTracked` and `ReleasesDisjoint` on the memory map. `UsableOrdered` and `UsableNonEmpty` (required by `Init` and `New`) stand for the `u64` arithmetic `region.end - region.start` and `region.end - 1`, which would underflow on a usable region that ends before it starts or is empty; that underflow is not modelled.
- FrameAllocator.BitmapFrameAllocator.Init: uses the corrected region filter of Finding 1 (`ChooseRegion`: the region must hold both placed bitmaps) where the kernel takes the first usable region with 2 MiB + 4 KiB above the low limit, and requires that such a region exists. It also requires that region's start above the limit to be page-aligned, because `get_bitflag_frames` is modelled on page-aligned addresses only. `BitmapFrameAllocator.New` returns `None` where no region passes the corrected filter, a superset of the inputs where the kernel's `unwrap` panics (`FitsImpliesFitsAsWritten`).
- FrameAllocator.BitmapFrameAllocator.MarkStorage: restores the hints after re-marking the storage frames (`RestoreHints`, Finding 3); the kernel leaves the hint where its last `set_used_lock` moved it.
- The 1 GiB arm of `set_used_lock` and `set_unused_lock` is `todo!()` in the kernel; `FrameSize` has only 4 KiB and 2 MiB.
- Release-build wrap-around of the frame counters (`u64` subtraction) is not modelled; every counter update is proved not to underflow under the debug assertions.
- `FrameAllocator.BitmapFrameAllocator.GetTotalUsableMemory` and `GetFreeDmaMemory` return the totals stored by `Init`, whose contract states them; they carry no contract of their own.
- The frame-memory report's `#[cfg(debug_assertions)]` gate and its log layout are not modelled; only the unit scaling rule is (`SizeFormat.ReportScale`).
- `interpolate` and `to_grayscale` of the colour type are parameters of the pixel buffer, because their source is not part of this model.
- `bezier`, glyph rasterisation (`draw_char`) and TGA decoding are not modelled. `DrawString` returns the glyph origins, and `DrawImage` takes decoded pixels.
- VgaDevice.VgaDevice.DrawLine: requires `LineDrawable`, and so does `VgaDevice.VgaDevice.DrawRectangle` for each of its four sides: every coordinate below `0x8000` and the longer axis below `0x4000`, which is enough for the `as i16` casts and the doubled differences to stay in `i16`. The bound is sufficient but not exact: it also excludes lines the kernel draws without overflow, such as (0,0) to (0x4800,0x3000). The kernel's wrap-around or panic on the lines that do overflow is not modelled.
- PixelBuffer.PixelBuffer.PaintAll: its own contract states only the length. That no byte outside the painted slots changes is stated by `PaintAllElsewhere`, and `PaintAllAppend` relates runs painted in turn.
- VgaDevice.VgaDevice.MeasureString: does not model the `u16` overflow of the cursor, which is a `nat`. The same holds for `DrawString`.
- PixelBuffer.PixelBuffer.PutPixel: the kernel checks only the first byte of the slot and panics on a later out-of-bounds byte. The model requires the last touched byte to be in the frame.
- Rtc.RtcController.GetCurrentTime: decodes with `DecodeCorrected`, the corrected 12-hour conversion of Finding 2 (12 AM is 0, 12 PM is 12), where the kernel gives 12 for 12 AM and 24 for 12 PM. `Decode` is the conversion as written, and `CorrectedDiffersAtTwelve` proves that in 12-hour mode the two agree on register hours 1 to 11 and differ by 12 at hour 12.
- Rtc.CurrentTime: returns the controller's reading, so it has the corrected hour of `GetCurrentTime` (Finding 2).
- `read_register` of the RTC is port I/O: the successive register reads come in as `samples`.
- The scheduler's `update_sleeping_threads`, `switch_to_thread` and the `run_*` wrappers are not modelled. Neither are `Arc`, `Mutex` and `lazy_static`: objects are shared by reference.
- Threads.Thread.TickDensity: the `u64` product `total_ticks * 100` is not bounded: with overflow checks the kernel panics once `total_ticks > u64::MAX / 100`, where the model returns `Some`. Without overflow checks a current tick below the start tick wraps instead of panicking, where the model returns `None`.
- Threads.Thread.NewNative: takes any `nat` entry point and stack pointer. The kernel passes both through `VirtAddr::new`, which panics on a value that is not a canonical 48-bit address; that panic is not modelled.
- `remove_thread_from_process_queues` lives in a file that is not part of this model; it is modelled by its name as removal from all three queues.
- Threads.Thread.ChangeState: states queue membership and order. It does not state a multiset equation; `JoinedOnce` gives the at-most-once property. It requires a state other than `Running`: for `Running` the kernel panics after the thread has already left its queues and taken the new state, and that half-done change is not modelled.
- Scheduling.Scheduler.TimerTick: requires `tick` to be at least the running thread's and its process's last tick. Below either, the kernel's `u64` subtractions `tick - last_tick` panic with overflow checks and wrap otherwise; neither outcome is modelled.
- ATA port polling (`wait_for`, `wait_400ns`, `connected`, `read_to_buffer`) is represented by the response parameters.
- `DiskDescriptor::from_bytes` and `PartitionDescriptor::from_bytes` are not part of this model: the first is folded into `IdentifyResponse`, the second is a parameter `fromBytes`. The byte combiner of `create_partition` is replaced by `NewEntry`.
- The LBA48 branch of `read_sector` and `write_sector` is `todo!()`: the bus methods require that the check does not answer `Lba48Only`.
- AtaBus.Bus.ReadSector: refuses `lba >= lba_28_addressable_sectors` (the corrected check of Finding 4) where the kernel's `>` lets `lba` equal to the capacity through; `CheckLbaDifference` proves that this is the only address where they differ. `AtaDisk.Disk.ReadSector` and `AtaPartition.Partition.ReadSector` inherit this.
- AtaBus.Bus.WriteSector: refuses `lba >= lba_28_addressable_sectors` (the corrected check of Finding 4) where the kernel's `>` lets `lba` equal to the capacity through. `AtaDisk.Disk.WriteSector`, `AtaPartition.Partition.WriteSector` and `create_partition`'s write-back inherit this.
- `get_disk` is not modelled: it only wraps `identify` into a disk.
- Debugger.ViewMemorySlice: with `from > to` it returns `None` at once; the kernel's `u64` subtraction `to - from` then panics with overflow checks and otherwise wraps into a dump of nearly all of memory, which is not modelled. Addresses are `nat`, so the `u64` wrap-around of `index + from + offset` is not modelled either.
- Div255.Div255Fast: requires `x <= 65278`, the largest input for which `x + 257` fits the `u16`; the overflow above it is not modelled. Its only caller passes at most `255 * 255` (`PixelBuffer.Blend`).
- The debugger's logging is its output. `exit`, `clocks` and `help` only log and are not modelled. The `memory info` handler is named in `MemoryCommand` but not modelled.

## Findings

| source | as written | input that shows it | evidently intended | confidence | as-written member | corrected member |
|---|---|---|---|---|---|---|
| kernel/src/memory/frame_allocator.rs:54-63 | The region filter checks only that the part above the low limit is at least 2 MiB + 4 KiB, but the third placement case of `get_bitflag_frames` can need almost 4 MiB | usable region `[0x100_2000, 0x120_3000)` with low limit `0x100_0000`: it passes the filter, and the 2 MiB bitmap frame at `0x120_0000` runs past `0x120_3000` | pick only a region that holds both placed bitmaps | not executed | FramePlacement.RegionOverrunAsWritten | FramePlacement.ChosenRegionHoldsBitmaps |
| internal_utils/src/clocks/rtc.rs:123-128 | In 12-hour mode, 12 is added for PM, and then only a result of 12 becomes 0 | BCD 12-hour register `0x92` (12 PM) gives hour 24; `0x12` (12 AM) gives 12 | 12 AM is 0 and 12 PM is 12 | not executed | Rtc.TwelveAsWritten | Rtc.Hour24Bijective |
| kernel/src/memory/frame_allocator.rs:212-214 | A 4 KiB `set_used_lock` sets the hint to the word after the one it filled, even when a lower word still has a free frame; `init` calls it directly when re-marking its storage frames | words 0 and 1 each with one free frame (frames 0 and 127); `set_used_lock(127 * 4096, 4K)` moves the hint to 2, and the next `allocate_frame::<Size4KiB>()` returns `None` with 4096 bytes free | the hint stays a lower bound on the first word with a free frame | not executed | FrameInit.SetUsedHintSkipsFreeFrame | FrameInit.StorageMarked |
| drivers/ata/src/bus.rs:188 | `lba > lba_28_addressable_sectors` lets the address equal to the capacity through | a disk of `n` LBA28 sectors and `lba = n` | `lba >=`, as the LBA48 test is written | not executed | AtaBus.CheckLbaAcceptsCapacity | AtaBus.CheckLbaDifference |
