# Ginge, modelled and proved

Ginge runs programs built for the GP2X and Wiz handhelds on other ARM machines. It loads their ELF image, patches
system-call stubs by signature, and turns every instruction that faults on a device register into a branch to
generated code, which calls an interpreter over a small emulated device. This project models those parts in Dafny
and proves what they promise.

`dafny verify dfyconfig.toml` checks everything. There is one module to a file:

- `words.dfy`: 32-bit words, bit fields and wrap-around on integers.
- `io_ops.dfy`: the load/store interpreter, and the ARM Architecture Reference Manual's semantics it stands for.
- `encodings.dfy`: what the interpreter does with instructions written down bit by bit.
- `arm.dfy`: a small ARM machine and the branch and load encoders.
- `trampoline.dfy`: the generated words and `emu_call_handle_op` run on that machine.
- `linkpages.dfy`, `layout.dfy`: the fault handler with its code allocator, and what every run of it keeps.
- `simulation.dfy`: the patched process against the original program.
- `lost_store.dfy`: a run of it from the start in which a store is lost.
- `refresh.dfy`: the futex hand-off with the display thread.
- `device.dfy`, `clock.dfy`: device registers, palettes, and the two clocks.
- `device_map.dfy`: the same registers by their addresses, and through trapped instructions.
- `blitter.dfy`, `rotation.dfy`: the 2D blitter on host memory, and the two rotation kernels.
- `blits.dfy`: what a blit does to memory, in the register values.
- `sig_patches.dfy`: the signature patcher.
- `patched_calls.dfy`: what the patched words do when they run, hw_ wrappers included.
- `libc.dfy`: the loader's own formatted output and number parsing.
- `formats.dfy`: what printed numbers mean, and which conversions a format asks for.
- `elf_loader.dfy`: the loop over program headers.

Code that updates state in place appears as classes and methods, each specified by a function on values; the
theorems are lemmas about those functions. Five modules (`encodings`, `device_map`, `blits`, `patched_calls`,
`formats`) say again what the main operations do in plain arithmetic on their inputs, without those functions' own
accessors, and prove that it is the same. Device and machine state are type parameters or plain values, so the
results about the interpreter and the trampoline hold whatever the device does.

## Where the code differs from what one would expect

- Right-shifted register offsets move by one more place than section A5.2 of ARM DDI 0100 says
  (`IoOps.HandlerPerforms`, `IoOps.LsrAgrees`, `IoOps.AsrAgrees`).
- The search for a near linkpage looks at the outgoing branch only (`Layout.BackInReach`).
- `memset16` writes two half-words for a count of zero at an address of the form 4k + 2, against the count it is
  given (`Blitter.Memset16`).
- A cache operation behind some patched call sites is judged by the wrapper's address that was written there
  (`SigPatches.LookBack`, `SigPatches.CacheLeftInPlace`).
- Negative numbers shorter than their field come out one character too wide (`LibC.FieldWidth`).
- `g_fprintf` does not charge numbers against its buffer, so enough of them are stored beyond its end, and drops a
  string that does not fit where one would expect it to be cut (`LibC.Fprintf`, `LibC.TouchedExactly`,
  `LibC.NumbersOverrun`, `LibC.PlainTextCut`).
- A patched instruction goes to the device for good: where it later addresses ordinary memory, its store is lost and
  its load makes up a value (`Simulation.SiteIsDeviceStep`, `Simulation.StoreIsLost`, `LostStore.StoreIsLostInRun`).
- The frame holds the status word where r15 would be, so an instruction with r15 takes that for its value
  (`IoOps.PcAsBase`, `IoOps.PcLoaded`).
- A half-word store to the stride register keeps all 32 bits of the register stored (`Device.HalfStoreIsNarrow`).
- Clipping compares 32-bit pointers, which for large strides can wrap around and then do not clip
  (`Blitter.ClippedIsMin`, `Blitter.WrappedIsNotClipped`). Negative strides are not clipped at all, or leave nothing
  (`Blitter.ClippedDownwards`).
- The address of page zero doubles as the mark for no segment (`ElfLoader.LowestIsLeast`), and headers that wrap around
  or have more file than memory are not found out (`ElfLoader.WrappedSegmentClears`,
  `ElfLoader.LongSegmentOverwrites`).
- A request cleared during a pause is lost, and half an address read between its two stores can be left on the
  screen; both last until the display thread's next time-out outside a pause (`Refresh.LostExactly`,
  `Refresh.RestExactly`, `Refresh.TimeoutRecovers`). With two program threads an address can stay on the screen that is
  not the committed one, even without half stores (`Refresh.SecondThreadHides`).

## Model

| member | source | states |
|---|---|---|
| `IoOps.EmuHandleOp` | loader/emu.c:765-869 | Updating the caller's frame in place leaves exactly the frame and device of `HandleOp`; an op word that is not handled leaves the frame alone. |
| `IoOps.EmuHandleHalf` | loader/emu.c:792-817 | The half-word branch of the above. |
| `IoOps.EmuHandleWord` | loader/emu.c:818-859 | The word and byte branch of the above, post-indexing included. |
| `IoOps.GuardMeetsManual` | loader/emu.c:773-790 | The conditions taken are exactly EQ to VC and AL, and each runs the op iff section A3.2 of ARM DDI 0100 says it passes. |
| `IoOps.DecodedTransfers` | loader/emu.c:792-861 | The decoder used here gives exactly the manual's single transfers (sections A5.2 and A5.3), but for ROR and RRX offsets, LDRSB, LDRD and STRD. |
| `IoOps.AcceptedTransfers` | loader/emu.c:792-861 | With the condition passed, a word is taken iff it is one of those, without pre-indexed write-back or T form, and half-words only pre-indexed; so the forms just named are rejected. |
| `IoOps.ShiftIsOneMore` | loader/emu.c:825-832 | A right shift by the encoded amount comes out as the manual's shift by one more, encoded 31 as its 32. |
| `IoOps.HandlerPerforms` | loader/emu.c:765-869 | Every word that is taken performs the decoded transfer on the frame, with right-shifted offsets shifted by one more place; the post-indexed store of the base register is apart. |
| `IoOps.ClashStoresNewBase` | loader/emu.c:840-858 | That store, UNPREDICTABLE in the manual, stores the moved base. |
| `IoOps.HandlerMeetsManual` | loader/emu.c:765-869 | With immediate, plain or left-shifted offsets the interpreter does to the frame exactly what sections A3.2, A5.2 and A5.3 say: skip, or address, sign extension, write-back and data; slot 15 stands for r15. |
| `IoOps.HandlerMeetsManualAt` | loader/emu.c:765-869 | For transfers without r15 that is the manual's effect on r0-r14 and the device with r15 reading as the address plus 8, and the flags stay. |
| `IoOps.PcAsBase` | loader/emu.c:767-840 | With r15 as the base the address is the manual's iff the status word happens to be the address plus 8. |
| `IoOps.PcLoaded` | loader/emu.c:846-852 | A load into r15 that the handler takes leaves in the status word what was loaded from the transfer's address. |
| `IoOps.LsrAgrees` | loader/emu.c:829 | A logically right-shifted offset is the manual's iff the register is below 2 to the shift (2 for an encoded zero), so that both are zero. |
| `IoOps.AsrAgrees` | loader/emu.c:830 | An arithmetically right-shifted offset is the manual's iff the register shifts to nothing but its sign. |
| `Encodings.HalfAccess` | loader/emu.c:767-817 | A half-word transfer written as a sum of its parts accesses the named register plus or minus 16 times the high digit plus the low one, or another register, loads with or without sign, and is rejected in just the other forms; the manual's decoder gives the parts back. |
| `Encodings.WordAccess` | loader/emu.c:818-859 | The same for words and bytes with a 12-bit offset, post-indexing included. |
| `Encodings.ScaledAccess` | loader/emu.c:818-859 | The same for shifted registers, right shifts one place further. |
| `Encodings.Conditions` | loader/emu.c:771-790 | The upper four bits of the word against the upper four of the status word: run, skip, or not taken. |
| `Encodings.Rejected` | loader/emu.c:792-861 | Words of any other kind are not taken, nor are multiplies and the like. |
| `Encodings.AddressStore` | loader/emu.c:798-817 | The half-word store that commits a screen address reaches 0x7f002914. |
| `Arm.JmpDecodes` | loader/emu.c:896-907 | Whatever `make_jmp` returns decodes to a B or BL (section A4.1.5 of ARM DDI 0100I) that lands on the target. |
| `Arm.JmpReach` | loader/emu.c:896-907 | `make_jmp` gives up iff no signed 24-bit word offset reaches the target. |
| `Arm.OffsetDecodes` | loader/emu.c:879-894 | The offset bits put into a pc-relative load decode to a load of exactly the target address, before or behind the pc. |
| `Trampoline.Enter` | loader/emu.c:987-991 | The first five generated words save r0 and lr in the frame and reach the stub with the context in r0. |
| `Trampoline.SaveRegisters` | loader/emu_arm.s:10-14 | sp and r1-r12 are in their slots of the frame, and sp points to it. |
| `Trampoline.SaveStatus` | loader/emu_arm.s:15-19 | The flags are in slot 15, the frame is the second argument, and lr survives in r4. |
| `Trampoline.FrameSaved` | loader/emu_arm.s:10-19 | What the C function finds in the frame is r0-r14 and the flags of the interrupted program. |
| `Trampoline.Restore` | loader/emu_arm.s:20-24 | r0-r13 and the flags come back from the frame, and control returns through lr. |
| `Trampoline.TrappedRun` | loader/emu.c:977-993 | Whatever the C code clobbers, 24 instructions after the fault site the registers, flags and device are the interpreter's and memory differs only in the dead room below sp. |
| `Trampoline.RanMeansHandled` | loader/emu.c:871-876 | The patched instruction only gets through if the interpreter takes the original word. |
| `Simulation.SlotKept` | loader/emu.c:792-859 | The interpreter changes no frame slot but the loaded and the post-indexed register's. |
| `Simulation.TrapIsHandled` | loader/emu_arm.s:9-24 | Under the side conditions (no r13, no slot 15 written) the patched instruction ends at pc + 4 with r0-r14, all flags and the device exactly as the interpreter leaves them. |
| `Simulation.SiteIsDeviceStep` | loader/emu.c:977-993 | Every run of a patched site is the interpreter's device step on the original program and keeps every trampoline intact; it is a step of the original program iff the instruction traps this time too, or the hardware would happen to do the same. |
| `Simulation.TrapsExactly` | loader/emu.c:977-993 | Unless the hardware, running the word there, would do to registers, device and memory what the handler does, a patched site's run is a step of the original program iff its instruction traps this time. |
| `Simulation.StoreIsLost` | loader/emu.c:984 | The other case: a patched half-word store that now addresses ordinary memory leaves memory and device as they are. |
| `Simulation.FaultIsInvisible` | loader/emu.c:927-1013 | One fault leaves the original program standing, but for the stack the signal was delivered on, and its address is patched afterwards. |
| `Simulation.NativeIsNative` | loader/emu.c:977-993 | An instruction whose footprint is clear of patched words, linkpages and stub does to the original program what it does to the patched one. |
| `Simulation.SiteRuns` | loader/emu.c:977-993 | A patched site never gets stuck. |
| `Simulation.StepRefines` | loader/emu.c:927-1013 | Every step keeps the process sound; it is a step of the original program with device accesses trapped, or standing still, exactly unless a patched site no longer addresses the device. |
| `Simulation.RunRefines` | loader/emu.c:927-1013 | The same at every step of every run. |
| `Simulation.NativeIsMatched` | loader/emu.c:977-993 | Conversely, a native step of the original program clear of what the patcher relies on is one of the patched process. |
| `Simulation.FaultIsMatched` | loader/emu.c:927-1013 | Where the original program faults on an unpatched instruction, with reach, pages and stack left, the patched process has its fault step. |
| `Simulation.TrapIsMatched` | loader/emu.c:927-1013 | A supported trapped step of the original program is reached by at most one fault and one run of a trampoline. |
| `Simulation.StepIsFollowed` | loader/emu.c:927-1013 | One such step of the original program is one or two of the patched process, which stays sound. |
| `Simulation.RunIsFollowed` | loader/emu.c:927-1013 | From every sound state the patched process follows the original program step by step, and stops only where the next instruction neither runs clear of the patcher nor traps, supported, with reach, pages and stack left. |
| `Simulation.SiteMeetsManual` | loader/emu_arm.s:9-24 | Running a patched site does to r0-r14, flags, pc and device what the architecture manual says of the original word there. |
| `Simulation.RegistersAreReached` | loader/emu.c:941-953 | No address that the device has a register window at is refused for its address. |
| `LostStore.StoreIsLostInRun` | loader/emu.c:927-1013 | A four-step run from start-up: a store faults and is patched, is emulated, the program comes back with an address in ordinary memory, and the cell keeps what was in it, which the original program would have replaced. |
| `Linkpages.LinkPatcher.constructor` | loader/emu.c:1043-1056 | Each region wanted is mapped below its program with the page header in place, and nothing else is written. |
| `Linkpages.LinkPatcher.EmitAll` | loader/emu.c:909-919 | Emitting words one by one leaves them in a row from the code pointer on, which ends behind them. |
| `Linkpages.LinkPatcher.FindNear` | loader/emu.c:955-969 | The first region whose next code is in range of a branch from pc, in table order. |
| `Linkpages.LinkPatcher.Generate` | loader/emu.c:977-993 | Memory gains exactly the context, the branch and the seven words; it fails iff one of the three encoders does. |
| `Linkpages.LinkPatcher.Turn` | loader/emu.c:999-1010 | The region moves to its next page iff another entry might not fit, and fails iff four pages are used. |
| `Linkpages.LinkPatcher.SegvSigaction` | loader/emu.c:927-1013 | One fault, with every exit: real crash, fatal, or the patched state of `Segv`. |
| `Linkpages.RealCrashExactly` | loader/emu.c:941-953 | A fault is a real crash iff its pc is in the loader's own text or in the first region's 16 KB block, or its address is outside 0x7f000000-0x7f1fffff. |
| `Linkpages.FirstNearRegion` | loader/emu.c:955-969 | A patch goes to the first region iff that is there and in range, counted in bytes, and otherwise to the second; the other one is left alone. |
| `Layout.NextRegion` | loader/emu.c:999-1010 | The n-th entry lies where n div 113 and n mod 113 say. |
| `Layout.TakenCounts` | loader/emu.c:999-1010 | Taking an entry fails iff the pages filled by both regions together would be four. |
| `Layout.AllocatorBudget` | loader/emu.c:999-1010 | Every run, in any mixture of the two regions: it goes on iff 113-entry pages filled in both add up to less than four. |
| `Layout.SingleRegionBudget` | loader/emu.c:999-1010 | One region completes a run of patches iff there are at most 451. |
| `Layout.PlaceFits` | loader/emu.c:977-1010 | Each entry lies in its page and each page in its own four-page mapping. |
| `Layout.LoadInReach` | loader/emu.c:879-894 | `make_offset12` never aborts on a trampoline in its page. |
| `Layout.OutInReach` | loader/emu.c:955-984 | A region found near lets the outgoing `make_jmp` succeed. |
| `Layout.BackInReach` | loader/emu.c:984-993 | The return jump fails iff the distance looked at exceeds 0x7ffff7 words; below the fault site it never does. |
| `Layout.RegionBelow` | loader/emu.c:1043-1056 | A region is page-aligned and ends at most a page below the program's lowest address. |
| `Layout.InitialConsistent` | loader/emu.c:1043-1056 | What start-up leaves is a consistent patcher with no trampolines. |
| `Layout.PatchWrites` | loader/emu.c:977-1010 | A patch writes one complete trampoline, one branch and perhaps a page header, and nothing else. |
| `Layout.StandingKept` | loader/emu.c:977-1010 | No later patch overwrites an earlier trampoline or its branch. |
| `Layout.SurvivedExactly` | loader/emu.c:927-1013 | A fault of an instruction not patched yet ends in a patch iff it is on 0x7f000000-0x7f1fffff and its pc neither in the loader's text nor in the first region's block, a region is near, the distance is at most 0x7ffff7 words, and the two regions have not filled their fourth page. |
| `Layout.FaultIsSurvived` | loader/emu.c:927-1056 | Start-up and such a fault exist, whatever is in memory, and for every address of the two megabytes. |
| `Layout.PatchKeeps` | loader/emu.c:927-1013 | Every fault keeps all patched addresses branching to their own contexts, which hold the original words and addresses. |
| `Refresh.StepIsSafe` | loader/emu.c:359-397 | The hand-off's invariant is kept by every action of every thread. |
| `Refresh.RunIsSafe` | loader/emu.c:359-397 | It holds in every reachable state of every interleaving. |
| `Refresh.LostExactly` | loader/emu.c:366-382 | In every interleaving, pauses and errors included, a refresh is lost iff its store preceded a clear after which the thread found the pause or an error, and no later request or read has made up for it. |
| `Refresh.NoLostRefresh` | loader/emu.c:363-397 | Without pauses and errors an owed refresh means the futex is 1 or the thread is between clearing it and reading the address; in any case nobody sleeps over a set futex without a wake to come. |
| `Refresh.TimeoutRecovers` | loader/emu.c:379-396 | From every reachable state that is not paused, the thread's own time-out brings it to read the address as it is, within seven moves. |
| `Refresh.RestExactly` | loader/emu.c:643-654 | One program thread, any run that commits no address zero: at rest the committed address is the one read last iff the run's last read after start-up did not fall between a half store and its commit. |
| `Refresh.RestShowsCommitted` | loader/emu.c:698-707 | One program thread, no half stores, no address zero: from the first commit on, the address at rest is the one committed. |
| `Refresh.PausedBlitIsLost` | loader/emu.c:379-382 | A run in which a blit's request is cleared during a pause and stays lost after the pause. |
| `Refresh.TornAddressRests` | loader/emu.c:643-654 | A run that comes to rest with half an address read last and no refresh owed. |
| `Refresh.SecondThreadHides` | loader/emu.c:698-707 | With two program threads, word stores only: a run that rests with one thread's address committed and recorded and the other's read last. |
| `Refresh.StartUpProgress` | loader/emu.c:1092-1101 | The start-up handshake cannot deadlock: until it is through a step forward is always possible, and no step leads back. |
| `Rotation.RotatedAt` | common/wiz_video_arm.s:24-69 | The rotation declared: pixel (x, y) goes to place y of row w - 1 - x. |
| `Rotation.RotationInverts` | common/wiz_video_arm.s:72-138 | Turning back restores every picture. |
| `Rotation.PackCounts` | common/wiz_video_arm.s:29-32 | Packing the inner count over the outer one loses neither. |
| `Rotation.InnerCount` | common/wiz_video_arm.s:58-63 | Counting the upper half down never disturbs the lower one, and its sign is the loop's end. |
| `Rotation.RotatedBlit16` | common/wiz_video_arm.s:3-69 | For every picture with sides a multiple of four the destination is the rotated source: no store is to a word that has been written before, every word has been written at the end, and nothing outside either buffer is touched. |
| `Rotation.ShufflePacks` | common/wiz_video_arm.s:91-125 | The four different shift-and-mask sequences each pack one byte column of four rows. |
| `Rotation.RotatedBlit8` | common/wiz_video_arm.s:72-138 | The byte kernel makes the same rotation pixel by pixel, storing to every word once. |
| `Blitter.Memset16` | loader/emu.c:162-181 | Any count and alignment: the fill is from the even address, as many half-words as the count, except two for zero or less at 4k + 2, and one for less than zero at 4k. |
| `Blitter.BltTr` | loader/emu.c:183-192 | The transparent row is the ascending half-word copy that skips the key colour. |
| `Blitter.RowFromSnapshot` | loader/emu.c:183-192 | Rows copied in place onto lower or disjoint addresses equal a copy from the memory before. |
| `Blitter.DownwardIsUntangled` | loader/emu.c:267-277 | Towards lower addresses, with no wider a stride there, no row is overwritten before it is read. |
| `Blitter.ApartIsUntangled` | loader/emu.c:267-277 | Nor if the two areas have no byte in common. |
| `Blitter.RowsFromSnapshot` | loader/emu.c:267-277 | Then every byte of every row, plain or transparent, comes from memory as it was before the blit, if rows do not run into each other, upwards or downwards. |
| `Blitter.RowsLeave` | loader/emu.c:267-277 | All bytes outside the destination rows stay. |
| `Blitter.CopyRows` | loader/emu.c:267-277 | The row loop is the declared copy. |
| `Blitter.RowsFilledAt` | loader/emu.c:279-289 | Every byte of every filled row is its byte of the colour, whatever the stride: rows that overlap agree. |
| `Blitter.RowsFilledLeave` | loader/emu.c:279-289 | All bytes outside the filled rows stay. |
| `Blitter.FillRows` | loader/emu.c:279-289 | The row loop is the declared fill. |
| `Blitter.ClippedIsMin` | loader/emu.c:251-265 | With upper memory at any host address, each clip leaves the minimum of the height and the rows that fit iff the 32-bit pointer behind the unclipped rows does not wrap around. |
| `Blitter.WrappedIsNotClipped` | loader/emu.c:251-265 | Where it wraps: sixteen rows fit, all 767 are left. |
| `Blitter.ClippedDownwards` | loader/emu.c:251-265 | With a negative stride all rows are left, or none if the pointer passes below address zero and wraps around to behind upper memory. |
| `Blitter.FirstAndLast` | loader/emu.c:267-290 | For any stride, positive, zero or negative, all rows lie within bounds iff the first and the last one do. |
| `Blitter.RowsFit` | loader/emu.c:251-265 | Rows of that many fit into upper memory, every one of them. |
| `Blitter.PlanFits` | loader/emu.c:222-265 | Without such pointers, a blit whose rows go up and do not run into each other has the least of the three heights and stays in the 32 MB of upper memory. |
| `Blitter.BlitterDo` | loader/emu.c:215-301 | For every blit whose rows lie in host memory as it is clipped, in upper memory or not, with strides of any sign and overlapping rows, host memory afterwards is the declared blit's, or untouched on the bad exit, and a refresh is asked for iff a big enough blit succeeded at a screen address. |
| `Blits.CopiedByte` | loader/emu.c:222-277 | In register values: byte i of row y at dstaddr (rounded to a word, bits 3 and 4 of dstctrl added) plus y strides is the old byte at the same place of the source, or stays where its half-word is the key. |
| `Blits.ColouredByte` | loader/emu.c:222-289 | In register values: it is the low or high byte of patbackcolor. |
| `Blits.CopyLeaves` | loader/emu.c:267-277 | All other bytes stay, in a copy, |
| `Blits.FillLeaves` | loader/emu.c:279-289 | and in a fill. |
| `Blits.PlannedExactly` | loader/emu.c:239-259 | A blit is made iff its destination is in 0x02000000-0x03ffffff, and for a copy, bit 8 of srcctrl is set and its source is too. |
| `Blits.ClipIs` | loader/emu.c:251-265 | A clip leaves all rows if they end in upper memory or go down, and else those that fit, if its pointer does not wrap around. |
| `Blits.RefreshExactly` | loader/emu.c:234-237 | A refresh is asked for iff width times height is at least 38400 and the destination is within 153600 bytes of the screen address. |
| `SigPatches.MatchIsUnique` | loader/patches.c:15-156 | No words match two table entries, so the order of the table does not matter. |
| `SigPatches.SigMatches` | loader/patches.c:226-234 | The comparison loop tells whether the signature matches under its mask. |
| `SigPatches.FindPatch` | loader/patches.c:222-250 | The table loop finds the first entry that applies, passing over cache entries refused by the look-back. |
| `SigPatches.WritePatch` | loader/patches.c:235-250 | Exactly the words of the patch are stored. |
| `SigPatches.SitesApart` | loader/patches.c:255-258 | Patched matches do not overlap. |
| `SigPatches.SiteWrites` | loader/patches.c:235-250 | Every word of a site's patch is that patch, within the matched words. |
| `SigPatches.OthersStay` | loader/patches.c:221-261 | Every other word stays. |
| `SigPatches.LookBack` | loader/patches.c:246-248 | The look-back differs from one at the original word iff the word before ends an open_a1 or hw_ patch whose wrapper lies outside 0xe0000000-0xefffffff. |
| `SigPatches.CacheLeftInPlace` | loader/patches.c:246-248 | Such a word: a cache operation right behind open_a1 is left in place. |
| `SigPatches.DoPatches` | loader/patches.c:215-261 | In place, every word becomes what the declared rewrite (leftmost, not overlapping, on original words) makes of it. |
| `PatchedCalls.JumpPatch` | loader/patches.c:236-239 | Run on the machine, a jump patch leads to the wrapper of the entry that was found and changes nothing else. |
| `PatchedCalls.PushPatch` | loader/patches.c:240-244 | A hw_ patch pushes the pc and leads to its wrapper. |
| `PatchedCalls.PushPatchReturns` | loader/patches.c:158-183 | Through the wrapper and back it does to r0-r14, flags and pc what the three words there did, given the system call's result: r4 is r0, the comparison's flags are set, and execution goes on behind the match. |
| `PatchedCalls.CachePatch` | loader/patches.c:245-251 | A patched cache operation only advances the pc. |
| `PatchedCalls.PatchedExactly` | loader/patches.c:221-258 | A word is patched iff an entry is found there, no earlier match reaches it, and before a cache operation there is a word from 0xe0000000 to 0xefffffff, as patched. |
| `PatchedCalls.StubFound` | loader/patches.c:22-156 | Every stub of the seventeen, with any branch targets where those are masked, is found as its own entry. |
| `PatchedCalls.EntryCalls` | loader/patches.c:22-213 | The system call in an entry is the one its wrapper stands for, by number. |
| `LibC.NextDigit` | loader/llibc.c:46-50 | Dividing by falling powers gives the digits and what is left. |
| `LibC.NumeralMeans` | loader/llibc.c:46-88 | The digits are worth the number, decimal and hexadecimal, and none of them is a leading zero. |
| `LibC.DecimalText` | loader/llibc.c:38-65 | The digit loop writes padding, sign and the shortest numeral. |
| `LibC.HexText` | loader/llibc.c:70-90 | The nibble loop writes zeros or spaces and the shortest numeral. |
| `LibC.FormatNumber` | loader/llibc.c:15-119 | What is stored into the buffer is the wanted text, cut to the room, and its terminator, and nothing else; no text for an unknown conversion. The bytes of scratch stored to exceed the 32 there are iff a negative number is asked for at width 31. |
| `LibC.FieldWidth` | loader/llibc.c:27-90 | The text is as long as the wider of field and number (section 7.19.6.1 of ISO C99), plus one exactly for a negative number not longer than its field. |
| `LibC.ScratchSuffices` | loader/llibc.c:18-96 | The same as a lemma about the text and its terminator. |
| `LibC.LeftJustified` | loader/llibc.c:98-116 | A negative width moves exactly the padding from the front to the end. |
| `LibC.ParseDec` | loader/llibc.c:121-139 | The digit loop gives the signed 32-bit value of the numeral, reduced, and stops at the first character after it. |
| `LibC.RoundTrip` | loader/llibc.c:31-139 | Reading back any number printed in decimal without left padding gives the same 32 bits, the minimum included, and stops behind its digits. |
| `LibC.PutString` | loader/llibc.c:170-194 | Padding, string, padding are stored; a string that does not fit is stored as far as there is room and ends the output, unsent. |
| `LibC.Fprintf` | loader/llibc.c:141-202 | What is sent is the output of the format's pieces; the buffer and what lies behind it are as `Printed` has them, unchanged from `Touched` on; text sent plus room left is 256 plus the characters numbers produced, which are `Uncharged`. |
| `LibC.PrintedText` | loader/llibc.c:141-202 | Printing piece by piece leaves the sent text in front, a terminator behind it, and all bytes from `Touched` on as they were. |
| `LibC.TouchedIsStored` | loader/llibc.c:141-202 | Every byte before `Touched` is stored to: what was there before makes no difference. |
| `LibC.Accounting` | loader/llibc.c:146-200 | For any pieces, what is sent and the room left make up the buffer and what numbers put in. |
| `LibC.WholeTextSent` | loader/llibc.c:141-202 | For every format and arguments: all the text is sent, from inside the 256 bytes, iff it has at most 255 characters. |
| `LibC.TouchedExactly` | loader/llibc.c:180-198 | How many bytes of the buffer are stored to: one more than is sent, or, when a string does not fit, 255 plus the characters numbers produced. |
| `LibC.NumbersOverrun` | loader/llibc.c:196 | Nine unsigned numbers of width 31: 279 characters sent, 280 bytes stored to. |
| `LibC.PlainTextCut` | loader/llibc.c:141-202 | Without numbers a prefix within the buffer is sent, the whole text iff it fits. |
| `Formats.NumberMeans` | loader/llibc.c:15-119 | The text of a number is spaces, a minus sign iff d or i is given a negative one, digits worth its magnitude in base 10 or 16, and spaces; with the exact padding, its side, and zeros for pointers and padded hexadecimal. |
| `Formats.FormatMeans` | loader/llibc.c:152-196 | A format spelt from characters, percent signs and conversions (minus or zero, width, l or z, letter) asks for just those, each with the next argument, strings filled on the side asked for. |
| `Formats.FormatPrints` | loader/llibc.c:141-202 | The text of those parts is sent, and fits the buffer, iff it has at most 255 characters. |
| `Formats.LongStringDropped` | loader/llibc.c:180-183 | A string of 256 characters or more is not sent at all, though 255 bytes of it are stored. |
| `Clock.TcountIsFloor` | loader/emu.c:582-588 | TCOUNT is the floor of ns * 31665935 / 2^32, modulo 2^32, although the product wraps at 64 bits. |
| `Clock.TickError` | loader/emu.c:582-588 | Over e ns it advances by 7372800 Hz ticks to within one, plus e * 120051200 / (10^9 * 2^32). |
| `Clock.Timer3Reduces` | loader/emu.c:440-444 | TIMER3's 32-bit arithmetic is its microseconds modulo 2^32. |
| `Clock.MicroIsQuotient` | loader/emu.c:443 | The multiply-shift is n / 1000 or one more for every n below 10^9, with the exact condition; exact whenever n mod 1000 is at most 836, and not always at 837. |
| `Clock.MicrosecondError` | loader/emu.c:443 | The counter is at most 163 ns ahead of the clock and less than a microsecond behind. |
| `Clock.MicrosecondsMonotone` | loader/emu.c:443 | Before reduction it never steps back, across seconds neither. |
| `Device.Channels` | common/host_fb.c:84-93 | A converted colour has the upper 5, 6 and 5 bits of the three channels. |
| `Device.Mmsp2.constructor` | loader/emu.c:1103-1110 | The whole state at the start: 16 bits per pixel, region 1 active, the first frame buffer, palette dirty, everything else zero. |
| `Device.Mmsp2.Write16` | loader/emu.c:623-667 | The fields after a half-word store are those of `After16`. |
| `Device.Mmsp2.Write32` | loader/emu.c:669-726 | The fields after a word store are those of `After32`, and a store to the run register makes host memory that of the declared blit. |
| `Device.Mmsp2.UpdatePal32` | common/host_fb.c:84-93 | The host palette becomes the conversion of all 256 colours. |
| `Device.Mmsp2.MlcFlip` | loader/emu.c:305-316 | A flip updates the host palette iff the depth uses one and it is dirty, from the family that made it so. |
| `Device.CoherentStep` | loader/emu.c:655-682 | Each store or flip keeps the host palette equal to the family written last, or marked for it. |
| `Device.FrameShowsLastWritten` | loader/emu.c:305-316 | After any run, a 4 or 8 bpp frame is shown with the conversion of the palette written last. |
| `Device.WordIsTwoHalves` | loader/emu.c:675-682 | A word store at 0x295a is two half-word stores, low half first. |
| `Device.PaletteLoad` | loader/emu.c:655-662 | n stores through the auto-increment fill exactly the n entries from the index on, round the end of the 512, and advance it by n. |
| `Device.AddressCommit` | loader/emu.c:643-654 | Two half-word stores commit their joint address, read back by both views, and ask for a refresh iff it is new. |
| `Device.RequestedIfMoved` | loader/emu.c:643-707 | Over any run the committed address changes only together with a request. |
| `Device.ControlRegister` | loader/emu.c:629-634 | Bits 9 and 10 choose 4, 8, 16 or 24 bits per pixel, nothing else changes, and the register reads back bit by bit as the low half written or 0xaa. |
| `Device.ReadsBack` | loader/emu.c:598-606 | Blitter registers, strides, word addresses and the palette index read back as stored, the run register as zero. |
| `Device.HalfStoreIsNarrow` | loader/emu.c:623-667 | A half-word store depends on the register's upper half iff it goes to the stride register with an upper bit set. |
| `Device.BusIsNarrow` | loader/emu.c:623-667 | Behind the interpreter, that store is the only transfer in which a store's size matters to the registers. |
| `Device.RegistersMeetManual` | loader/emu.c:765-869 | Every trapped instruction that is taken does to these registers exactly what the manual says, right-shifted offsets and that store aside. |
| `DeviceMap.Windows` | loader/emu.c:573-724 | The two windows, as address ranges. |
| `DeviceMap.RegistersSet` | loader/emu.c:715-719 | Stores to nine addresses set the nine registers that a blit reads. |
| `DeviceMap.StoresMakeBlit` | loader/emu.c:715-723 | These and an odd word at 0x7f100034 make memory what `Blits` says of the nine values. |
| `DeviceMap.LayerControl` | loader/emu.c:684-693 | The layer control register leaves the depth alone with bit 5 clear, and sets 8 bits per pixel iff its upper half is 0x443a, else 16. |
| `DeviceMap.ClocksRead` | loader/emu.c:438-444 | Which address reads which clock, and its value. |
| `DeviceMap.FirstPaletteShows` | loader/emu.c:655-662 | A colour stored through index and data registers is shown by the next frame at 4 or 8 bits per pixel: five bits of red from the second half-word, six of green and five of blue from the first. |
| `DeviceMap.SecondPaletteShows` | loader/emu.c:708-712 | So is one stored as a word to the other palette. |
| `DeviceMap.AddressThroughTraps` | loader/emu.c:698-707 | Trapped instructions on the register bus commit a screen address and read it back, as a word and as halves. |
| `DeviceMap.AtStart` | loader/emu.c:1103-1110 | What registers read as before anything is stored. |
| `ElfLoader.IsRangeUsed` | loader/loader.c:51-64 | Zero iff no mapping meets the range, else one more than the index of the first that does. |
| `ElfLoader.RoundingStaysClear` | loader/loader.c:144-157 | Rounding a cleared range to pages reaches no page-aligned mapping. |
| `ElfLoader.LoadSegments` | loader/loader.c:132-173 | The loop is the declared loading for all headers, in 32-bit arithmetic, with its three error exits. |
| `ElfLoader.LoadsExactly` | loader/loader.c:132-163 | Loading succeeds iff nothing stops it at any segment, in header fields: a mapping in the way, no page or too few addresses to map, a file or address space too short; otherwise it fails with what stops it first. |
| `ElfLoader.LastStoreWins` | loader/loader.c:154-165 | Every byte of memory afterwards, for all headers that load: that of the last segment that maps its page or reads to it, else what was there. |
| `ElfLoader.LoadedByte` | loader/loader.c:154-165 | The same in header fields: the last segment whose pages or file bytes reach an address decides its byte. |
| `ElfLoader.ImageIsLoaded` | loader/loader.c:154-165 | With no page shared, every byte of every segment is its file byte or zero (chapter 5 of the System V ABI, 'Program Header'), before patching. |
| `ElfLoader.OldMappingsStay` | loader/loader.c:144-157 | Mappings that existed before keep their contents, if no segment wraps around or has more file than memory. |
| `ElfLoader.KeptExactly` | loader/loader.c:144-165 | For all headers that load: a byte is kept, whatever it was, iff no segment stores to it. |
| `ElfLoader.WrappedSegmentClears` | loader/loader.c:133-157 | A segment whose end wraps around to zero passes the check and clears a mapping in its way. |
| `ElfLoader.LongSegmentOverwrites` | loader/loader.c:161-165 | One with more file than memory is read over a mapping behind its pages. |
| `ElfLoader.LowestIsLeast` | loader/loader.c:171-172 | The page remembered is the lowest iff no segment is on page zero, or the last one is. |
| `ElfLoader.LinkpagesBelowImage` | loader/emu.c:1043-1056 | The linkpages placed below the remembered page end there, under every segment, or wrap around to the top of memory where there is no room below it. |

## Left out

- System-call wrappers, fake device files, path mapping, input, touchscreen, sound: I/O plumbing.
- Script conversion and on-screen text in `prep/`: file and shell I/O.
- Cache flushing, mprotect and signal delivery are taken to succeed; a fault is one atomic call of the handler.
- The button registers, the Pollux registers read as half-words, and the values invented for unknown registers.
- `fb_thread_pause` waits 10 ms and hopes; a pause is a flag that makes the thread drop requests.
- The futex wait is one atomic comparison and sleep, its time-outs may come at any moment, and shared accesses
  happen in program order, one to a step.
- The pixel loops of the host blits: only the palette handed to them is modelled. `host_video_blit4` in its PND form
  has an inner loop on the wrong variable and is not part of this model.
- Memory below sp is volatile in the simulation, as the signal frame and the interpreter's own frame make it; a program
  that keeps data there is outside of it.
- Simulation.StepRefines: native instructions that read or write patched words, linkpages or the stub are excluded,
  and so are patched words that write r13 or slot 15; the source has the same limits and does not look.
- Simulation.RunIsFollowed: whether every later step finds reach, pages and stack room left is up to the program;
  `Layout.SurvivedExactly` says when it does not. What is left below the stack pointer is the patched process's.
- IoOps.HandlerMeetsManual: unaligned word addresses are passed on as they are, without the manual's rotation.
- IoOps.HandlerPerforms: a C shift by 32 is taken as the ARM register shift that the compiler emits.
- Refresh.RestExactly: what is compared is the address the thread read last; a frame outside of upper memory is read
  and not shown. Committing address zero is left out, as zero is also what stands for no address committed yet, and
  so are two program threads at once, for which it fails.
- Refresh.RestShowsCommitted: the same two.
- Blitter.BlitterDo: products of stride and height beyond an int, which C leaves undefined. A stride above 0x7fffffff
  is taken as negative, as the compiler does; where host memory has holes, a store there is a fault of its own.
- Device.RegistersMeetManual: the bus covers the registers, not the memory that a blit started through it changes;
  `Device.Mmsp2.Write32` covers that.
- Device.Mmsp2.Write32: asks the same of a blit that it starts.
- Device.FrameShowsLastWritten: a flip is one atomic step, so a palette store in the middle of a conversion is not seen.
- LibC.FormatNumber: what an overrun of the scratch buffer does to the stack is not modelled, only when there is one.
- LibC.Fprintf: likewise, what lies behind the 256 bytes is stored to as one array with them, and has to reach as far
  as is stored; formats must not break off inside a conversion, where the program would read behind them.
- Linkpages.LinkPatcher.constructor: programs below 0x5000, whose region would begin at address zero, where no mapping
  counts as one, or at the top of memory.
- SigPatches.DoPatches: the array must reach seven words behind the part scanned, where signatures are compared; an
  unaligned start is rounded up by the caller.
- PatchedCalls.PushPatchReturns: the machine stores pc 8 bytes ahead where the wrapper adjusts it, and 12 where not, as
  the two builds take it; what the C functions behind the wrappers do is up to them.
- Blits.CopiedByte: pointers that a clip compares must not wrap around; `Blitter.BlitterDo` covers them.
- ElfLoader.LoadSegments: memory that fread stores to is taken to be mapped; the header checks before the loop and the
  patch pass inside it are left out, the latter being `SigPatches.DoPatches`.
- Rotation.RotatedBlit16: counts must fit their halves of lr, that is widths to 131072 and heights to 262140.
