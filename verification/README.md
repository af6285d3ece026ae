# Verified model of the Bare-Metal-Programming kernel

This project models the parts of the kernel that keep state and do real arithmetic, and proves what
they are for. `dafny verify dfyconfig.toml` checks all of it (Dafny 4.11).

- **Physical memory manager** (`Bits`, `Shifts`, `Alignment`, `Frames`, `Words`, `Search`, `Fill`,
  `BitmapBytes`, `Allocator`, `E820`, `Pmm`). A bitmap of frames is searched and filled at five word
  widths that are stitched together by alignment. Words are numbers with their bits, wide loads are
  little-endian groups of bytes, and the bitmap starts at an arbitrary address, so every alignment is
  proved. All three CPU tiers return the frame-by-frame first fit; the four entry points and the
  initialization compute the steps of one state machine (`Allocator`), about which the statements
  over whole runs are made.
- **Stack calculator** (`CallGraph`). The three-colour search, the reversed postorder, the relaxation
  and the recursive depth are proved against paths of the call graph.
- **Text terminal** (`Vga`). The window that moves through 32 KiB of video memory, with its copy-back,
  shows exactly what an ideal 25 x 80 terminal shows.
- **Interrupt entry and exit** (`Interrupts`). A machine over the stack pointer, the words on the
  stacks and the two counters; the linker script's stack size is enough, and no byte too much.
- **Line editor** (`LineEditor`), **keyboard driver** (`Keyboard`) and **timer** (`Timer`).

The form follows the source: buffers that are written in place are arrays, globals that are
updated are fields of a class, loops are loops. Searches only read the bitmap and take its bytes as
a sequence. Pointers are addresses. The inline and noinline twins of a function are one member, and
so are the functions that differ only in a word width or in the bit value they write.

## Findings

- A contiguous search stops its second pass at the hint (kernel/pmm.cpp:482-484), so a run of free
  frames that straddles the hint is not found. `Search.SearchMissesStraddling` says exactly when that
  makes a search fail and `Search.StraddlingRunIsMissed` gives a bitmap; `Search.SearchCompleteAtEdge`
  gives a condition on the two frames at the hint under which it cannot happen.
- Initialization subtracts a frame from the counter once for every memory-map entry that frees it
  (kernel/pmm.cpp:961, called from 1077 and 1082). The counter it leaves is right iff the excess is a
  multiple of 2^32 (`E820.CounterAfterInit`); on a map of at most 4096 entries that is iff no frame is
  freed twice (`E820.CounterRightIff`). `Pmm.DoubledMapMiscounts` gives a map. Nothing but the counter
  suffers: safety is proved without it.
- A memory-map entry whose sums wrap 64 bits (kernel/pmm.cpp:1064-1065) can get wrong frames;
  `E820.WholeFrames` says exactly when. One in the last page of the 64-bit space frees every frame
  that is not reserved, even when it has no bytes (`E820.WrappingEntryCoversAll`).
- In `set_frames_used_32` and `set_frames_free_32` the 32-bit stage is given the bound of the 16-bit
  stage and stores nothing (kernel/pmm.cpp:766, 847); the result is still right (`Fill.SetFrames32`).
- `move_backwards` (io/vga_text_buffer.cpp:200-208) is right iff the cursor is not at the top left, and
  `move_cursor_left_n` and `move_cursor_right_n` (io/vga_text_buffer.cpp:228-249) are right iff they
  stay in the row.
- The relaxation adds in 32 bits (diagnostic_tools/stack_calculator.cpp:298); its distances are right
  iff every path weight fits (`CallGraph.StackCalculator.Relax`).
- Between the relaxation and the recursive depth of the kernel the frame size of `__indirect_call` is
  written (diagnostic_tools/stack_calculator.cpp:154, 170 and 303), so the two are computed on
  different sizes and the depth can exceed the heaviest path that the relaxation found
  (`CallGraph.IndirectCallsDisagree`). It does iff some path from the kernel's entry through
  `__indirect_call` has no room for the difference (`CallGraph.DepthAgainstBiggest`).
- `sleep_ms` is exact for every duration iff the frequency is at most 4 299 265 Hz
  (kernel/timer.cpp:62); the stopwatch is exact for every interval iff it is at most 4 294 968 Hz
  (tools/stopwatch.h:36). The wait of `sleep_ticks` (kernel/timer.cpp:43) sees its end in time iff no
  halt can bring enough interrupts to step over the window of answers (`Timer.SeenInTimeIff`).
- `add_string` refuses a string that would fill the buffer exactly (terminal/input.cpp:53);
  `add_character` does not (terminal/input.cpp:38).
- A full keyboard queue drops a scancode but keeps a prefix before it
  (drivers/keyboard/keyboard.cpp:289-295), and the next plain key is then taken for an extended one
  (`Keyboard.OverflowMisleads`).
- `documentation/kernel_pmm.md` (from line 40) describes another version of the memory manager (lookup
  tables, a lower limit, a search end); the model follows `kernel/pmm.cpp`.

## Model

| member | source | states |
|---|---|---|
| Shifts.SpaceExact | kernel/internal/pmm_templates.h:25-68 | for word widths 8, 16 and 32 and every length shorter than the word, bit p survives the shift doubling iff the run of that length starting at bit p is all set |
| Shifts.StepsExact | kernel/internal/pmm_templates.h:33-47 | no step jumps further than the run already covered, and the steps add up to the length minus one |
| Shifts.EarliestInWord | kernel/pmm.cpp:134-148 | the trailing zeros of the result are the earliest buried run; a zero result means there is none |
| Alignment.AlignDownIs | kernel/pmm.cpp:457-463 | masking an address with the complement of a power of two minus one rounds it down to a multiple |
| Alignment.PeelBound | kernel/pmm.cpp:445-463 | a peeling bound is aligned and inside the range, and it stops the stage only when the cursor is aligned or no whole word is left |
| Frames.LoadBits | kernel/pmm.cpp:227 | bit p of a little-endian wide load at byte k is frame 8k + p |
| Words.MixedWord | kernel/pmm.cpp:125-152 | trailing and leading zeros of a mixed word are the free frames at its two ends, bounded by used frames |
| Words.StepBuried | kernel/pmm.cpp:248-264 | in a mixed word that does not complete the carried run, the buried run found is the earliest run of the whole scan, and none is missed |
| Words.StepTail | kernel/pmm.cpp:366-380 | when no run is found the leading zeros are exactly the free run to carry on, and it is shorter than wanted |
| Search.ContiguousGpr | kernel/pmm.cpp:103-442 | the 8, 16 and 32 bit cores find the earliest run in the scanned range, or hand on exactly the length of the free run that ends where they stop; no load is misaligned |
| Search.ContiguousSse2 | kernel/pmm.cpp:488-574 | the same for 128-bit vectors, with mixed ones handed to the 32-bit core |
| Search.ContiguousAvx2 | kernel/pmm.cpp:624-667 | the same for 256-bit vectors, with mixed ones handed to the 128-bit core |
| Search.Sweep32 | kernel/pmm.cpp:450-475 | for every alignment of both ends the result is the frame-by-frame first fit of the range |
| Search.SweepSse2 | kernel/pmm.cpp:576-610 | the same first fit |
| Search.SweepAvx2 | kernel/pmm.cpp:669-712 | the same first fit |
| Search.FindContiguousFrames | kernel/pmm.cpp:477-723 | on every tier: the run found is the earliest at or above the hint, or, only when there is none there, the earliest that lies below it; a search fails iff neither half has a run |
| Search.SearchMissesStraddling | kernel/pmm.cpp:477-486 | the search fails iff every run of that length straddles the hint |
| Search.SearchCompleteAtEdge | kernel/pmm.cpp:477-486 | with a used frame next to the hint the search fails iff there is no run at all |
| Search.StraddlingRunIsMissed | kernel/pmm.cpp:477-486 | a bitmap on which a free run is missed |
| Fill.StoreAligned | kernel/internal/pmm_templates.h:110 | one store writes w equal bytes, only at an aligned address and inside the range |
| Fill.SetWords | kernel/internal/pmm_templates.h:71-163 | a fill loop writes exactly the bytes from its start to its end and leaves the pointer there |
| Fill.SetFrames32 | kernel/pmm.cpp:753-772 | exactly the bytes of the range are written, for every alignment, although the 32-bit stage does nothing |
| Fill.SetFramesSse2 | kernel/pmm.cpp:774-797 | exactly the bytes of the range are written |
| Fill.SetFramesAvx2 | kernel/pmm.cpp:799-827 | exactly the bytes of the range are written |
| BitmapBytes.MarkUsedFrames | kernel/pmm.cpp:1144-1167 | two masked bytes and the whole bytes between them set exactly the frames of the run |
| BitmapBytes.MarkFreeFrames | kernel/pmm.cpp:962-975 | the two masked bytes and the bytes between them clear exactly the frames of the range |
| BitmapBytes.MaskedUsedIs | kernel/pmm.cpp:982-998 | the masked tests succeed iff every frame of the range is used |
| BitmapBytes.FirstFreeFrame | kernel/pmm.cpp:947-955 | the first clear bit of the first byte that is not full is the first free frame |
| BitmapBytes.WrappedOverlapIsOverlap | kernel/pmm.cpp:1184-1191 | two wrapped subtractions decide interval overlap exactly |
| BitmapBytes.SelectLowerIsMinimum | kernel/pmm.cpp:1127-1130 | the branchless selection by a mask is the minimum |
| Pmm.PhysicalMemoryManager.HighestAddress | kernel/pmm.cpp:1027-1035 | no usable entry ends above the result, and the result is 0 or the end of a usable entry; ends are 64-bit sums |
| Pmm.PhysicalMemoryManager.Initialize | kernel/pmm.cpp:1022-1086 | the invariant holds; the kernel range is exactly the pages that kernel image and bitmap touch; on a map that does not wrap a frame is free iff its page has a 32-bit address, is not the first, touches neither kernel nor bitmap, and lies in one usable entry; when no usable entry wraps in a wrong way the same by frame ranges; the counter is right iff the excess is a multiple of 2^32, with at most 4096 entries iff no frame is freed twice |
| Pmm.PhysicalMemoryManager.FreeOpenFrames | kernel/pmm.cpp:1069-1082 | the splitting loop frees exactly the frames of the entry outside the sorted reserved ranges, and counts them |
| Pmm.PhysicalMemoryManager.FindFreeByte | kernel/pmm.cpp:948-955 | the first byte that is not full, or none |
| Pmm.PhysicalMemoryManager.IsFrameRangeUsed | kernel/pmm.cpp:980-999 | true iff every frame of the range is used |
| Pmm.PhysicalMemoryManager.FreeFrameRange | kernel/pmm.cpp:959-976 | clears exactly the range and subtracts its length, modulo 2^32 |
| Pmm.PhysicalMemoryManager.AllocateFrame | kernel/pmm.cpp:1088-1107 | the state machine's grant of one frame: null and no change, or the address of a page whose frame was free and is the only one that changes |
| Pmm.PhysicalMemoryManager.AllocateContiguousFrames | kernel/pmm.cpp:1135-1171 | the state machine's grant of n frames: null and no change, or the address of the first of n pages whose frames were free and are the only ones that change |
| Pmm.PhysicalMemoryManager.FreeFrame | kernel/pmm.cpp:1110-1132 | the state machine's release of one frame, with its outcome: on success only the frame at the address changes, from used to free, otherwise none |
| Pmm.PhysicalMemoryManager.FreeContiguousFrames | kernel/pmm.cpp:1174-1202 | the state machine's release of n frames, with its outcome: on success only the n frames from the address on change, from used to free, otherwise none |
| Pmm.HeldFramesAreUsable | kernel/pmm.cpp:1022-1202 | from initialization on, callers that free only what they hold have disjoint holdings of frames that the map made free, with 32-bit addresses, and every such frame is either held or free; when no usable entry wraps in a wrong way these frames are the ones wholly inside usable entries and outside the reserved ranges; the counter need not be right |
| Pmm.GrantedBytes | kernel/pmm.cpp:1050-1202 | over every run, whatever callers do, the bytes handed out have 32-bit addresses above the first page and are neither kernel image nor bitmap |
| Pmm.DoubledMapMiscounts | kernel/pmm.cpp:959-961 | a map that lists the same memory twice leaves a wrong counter |
| Allocator.AllocStep | kernel/pmm.cpp:1144-1170 | a grant is the earliest run at or above the hint, or else below it, and fails iff there is neither; it is of free, unreserved, existing frames, not frame 0; exactly those bits and the counter change; the next search begins at the byte of the last frame, or behind it when that is full; the invariant is kept, and a right counter stays right |
| Allocator.FreeStep | kernel/pmm.cpp:957-976 | the outcome by the frames asked for: none, beyond the end, one reserved, one free, or success; success frees exactly them and lowers the hint to their first byte, anything else changes nothing; the invariant and a right counter are kept |
| Allocator.AllocThenFree | kernel/pmm.cpp:1134-1202 | returning a grant always succeeds, restores frames and counter, and puts the hint at the first byte of the run |
| Allocator.SingleExhaustion | kernel/pmm.cpp:1091-1096 | a request for one frame fails iff all frames are used; with a right counter, iff it equals the number of frames |
| Allocator.TightAfterAlloc | kernel/pmm.cpp:1098-1104 | single-frame allocation keeps every frame below the hint used |
| Allocator.TightAfterFree | kernel/pmm.cpp:1197-1200 | every release keeps every frame below the hint used |
| Allocator.TightIsLowest | kernel/pmm.cpp:1088-1107 | then one frame means the lowest free frame of all, and searches are complete |
| Allocator.SingleRunsAreTight | kernel/pmm.cpp:1088-1132 | over every run that takes single frames only and releases anything, every frame below the hint is used, the next frame is the lowest free one, and a search for any number of frames is complete |
| Allocator.EveryRunIsSafe | kernel/pmm.cpp:1088-1202 | over every run, whatever callers free and whatever the counter says, the invariant holds and nothing handed out is null, reserved or out of bounds; a right counter stays right |
| Allocator.EveryCallerRunIsFair | kernel/pmm.cpp:1088-1202 | over every legal run the frames free at the start are partitioned into the free ones and the disjoint holdings |
| Allocator.ReleaseSucceeds | kernel/pmm.cpp:1174-1201 | releasing held frames, in any grouping, succeeds |
| E820.WholeFrames | kernel/pmm.cpp:1063-1065 | the frame range of an entry is the frames wholly inside it iff its 64-bit sums do not wrap in one of two harmful ways |
| E820.FreedIsUsable | kernel/pmm.cpp:1059-1085 | when no usable entry wraps in a wrong way the frames that are freed are exactly those wholly inside a usable entry, existing and not reserved |
| E820.ExistingFrames | kernel/pmm.cpp:1026-1041 | a frame exists iff its page has a 32-bit address and ends no later than some usable entry |
| E820.FreedOughtToBe | kernel/pmm.cpp:1055-1085 | on a map that does not wrap the frames freed are those whose pages, in bytes, ought to be free |
| E820.WrappingEntryCoversAll | kernel/pmm.cpp:1064 | a map of one empty entry that wraps counts as 4 GiB, and every unreserved frame is freed although none is usable memory |
| E820.CounterAfterInit | kernel/pmm.cpp:1048-1082 | the counter is the number of used frames iff the excess is a multiple of 2^32, and there is no excess iff no frame is freed twice |
| E820.CounterRightIff | kernel/pmm.cpp:1048-1082 | with at most 4096 entries the counter is right iff no frame is freed twice |
| E820.DuplicateMiscounts | kernel/pmm.cpp:959-961 | listing an entry twice over an unreserved frame makes the counter wrong |
| E820.CountedTwoWays | kernel/pmm.cpp:1059-1085 | counting freed frames by entries and by frames gives the same number |
| CallGraph.StackCalculator.Visit | diagnostic_tools/stack_calculator.cpp:99-117 | the search keeps the order a postorder of the black nodes, finds a cycle only if there is one, and otherwise leaves no new gray node |
| CallGraph.StackCalculator.FindLoops | diagnostic_tools/stack_calculator.cpp:257-271 | a cycle is reported iff the graph has one, in whatever order the roots come and although a search cut short leaves gray nodes; otherwise the order is a postorder of all nodes |
| CallGraph.ReversedPostorder | diagnostic_tools/stack_calculator.cpp:274 | the reversed postorder has every node once and before all that it calls |
| CallGraph.PostorderAcyclic | diagnostic_tools/stack_calculator.cpp:99-117 | a graph with a postorder of all nodes has no cycle |
| CallGraph.FinishedPart | diagnostic_tools/stack_calculator.cpp:257-274 | what a search has finished is closed under calls, the reversed order is a topological order of it, and it is the whole graph when all nodes are finished |
| CallGraph.StackCalculator.Relax | diagnostic_tools/stack_calculator.cpp:276-301 | every distance ends as the weight of the heaviest path to its node iff all path weights fit 32 bits, and then the biggest is the heaviest of all; in a cyclic graph this is said of the part that the search finished |
| CallGraph.StackCalculator.FindAndRelax | diagnostic_tools/stack_calculator.cpp:254-301 | on every graph: a cycle is reported iff there is one, and the relaxation is right on the finished part, which is the whole graph when there is no cycle |
| CallGraph.StackCalculator.GetSubtreeDepth | diagnostic_tools/stack_calculator.cpp:120-130 | the depth is the weight of the heaviest path from the node, by the frame sizes at the time |
| CallGraph.DepthFits64 | diagnostic_tools/stack_calculator.cpp:120-130 | a path of an acyclic graph meets no node twice, so with at most 2^32 nodes the 64-bit depth cannot wrap |
| CallGraph.StackCalculator.DeepestHandler | diagnostic_tools/stack_calculator.cpp:141-152 | the result is the heaviest path from any of the handlers, or the start value where that is more; names that are no node are passed over |
| CallGraph.StackCalculator.GetInterruptStackSize | diagnostic_tools/stack_calculator.cpp:135-172 | the placeholder is given the depth of the independent handlers, by which the dependent ones are measured, and then the depth of all, in 32 bits |
| CallGraph.StackCalculator.Analyse | diagnostic_tools/stack_calculator.cpp:254-304 | without cycles the kernel's depth is the heaviest path from its entry by the rewritten placeholder; it is at most the biggest distance iff no path through the placeholder lacks room for the change, and at least that when every other function has a caller and the placeholder did not shrink |
| CallGraph.DepthAgainstBiggest | diagnostic_tools/stack_calculator.cpp:303-304 | the depth by new sizes is at most the heaviest path by old sizes iff every path from the root through the placeholder has room for the change |
| CallGraph.IndirectCallsDisagree | diagnostic_tools/stack_calculator.cpp:154-170 | a graph of three functions on which the relaxation finds 5 and the kernel's depth is 6 |
| CallGraph.TraceBack | diagnostic_tools/stack_calculator.cpp:304 | when every other function has a caller, each path is outweighed by one that starts at the root |
| CallGraph.MaximaAgree | diagnostic_tools/stack_calculator.cpp:120-301 | on one set of frame sizes the maximum of the distances and the maximum of the depths over all nodes are both the heaviest path of the graph |
| Vga.VgaTextBuffer.FillCells | io/vga_text_buffer.cpp:8-46 | each tier writes the entry to exactly the cells asked for, in aligned stores |
| Vga.VgaTextBuffer.CopyCells | io/vga_text_buffer.cpp:59-103 | each tier copies exactly the cells asked for |
| Vga.VgaTextBuffer.Reset | io/vga_text_buffer.cpp:118-137 | the last 24 rows come to stand in rows 1 to 24 with a blank row after them; it happens exactly when one row more would not fit the 32 KiB |
| Vga.VgaTextBuffer.Clear | io/vga_text_buffer.cpp:139-152 | every cell shown is a white-on-black space, 0x0F20, and the cursor is at the top left |
| Vga.VgaTextBuffer.MoveForward | io/vga_text_buffer.cpp:178-197 | what is shown is the ideal terminal one cell on, with a line scrolled in when needed |
| Vga.VgaTextBuffer.MoveToNextLine | io/vga_text_buffer.cpp:210-225 | what is shown is the ideal terminal on the next line |
| Vga.VgaTextBuffer.Put | io/vga_text_buffer.cpp:164-169 | the cell under the cursor gets the character in its low byte and the colour in its high one, the cursor moves on, and no other cell changes, except that behind the last cell all rows move up and the last is blank |
| Vga.VgaTextBuffer.WriteString | terminal/output.cpp:21-28 | for every text what is shown is what the ideal terminal renders, through every scroll and copy-back, inside the 32 KiB; for a text without line control it is a window on the endless tape of that text |
| Vga.VgaTextBuffer.MoveBackwards | io/vga_text_buffer.cpp:199-208 | the position steps back by one iff the cursor is not at the top left |
| Vga.VgaTextBuffer.MoveCursorN | io/vga_text_buffer.cpp:227-249 | the position moves by the count iff the row is not left |
| Vga.RenderAppend | terminal/output.cpp:21-28 | rendering a text is rendering its parts in turn |
| Vga.RenderIsTape | terminal/output.cpp:21-28 | rendering a text of any length without line control shows the last rows, as few moved up as needed, of a tape that holds the old screen, the text from the cursor on, and blanks |
| Vga.PutCharWrites | io/vga_text_buffer.cpp:164-225 | cell by cell what carriage return, line feed and any other character do to screen and cursor, with the encoding of the cells |
| Vga.RuboutIs | io/vga_text_buffer.cpp:171-176 | the cell before the cursor becomes a space in the colour in force, the cursor stands on it, and nothing else changes |
| Vga.LinesMoveUp | io/vga_text_buffer.cpp:210-225 | from the bottom row every line feed moves a line up by one |
| Interrupts.InterruptStep | assembly/common_interrupt_entry.S:24-57 | an interrupt is refused iff fifteen hardware interrupts, vectors 32 and up, or three exceptions are being served already; otherwise its frame of thirteen words stands right below the interrupted stack pointer and the invariant is kept |
| Interrupts.ReturnStep | assembly/common_interrupt_entry.S:98-107 | the exit restores the interrupted stack pointer and decrements the counter of the right kind |
| Interrupts.WorkKeepsSaved | assembly/common_interrupt_entry.S:75-96 | a handler writing its own part of the stack leaves all saved words in place |
| Interrupts.EveryRunFits | link_scripts/kernel.ld:1-3 | over every run the counters are the interrupts being served of each kind, at most 15 and 3, and the stack pointer stays inside the reserved stack |
| Interrupts.ReservedSizeIsNeeded | link_scripts/kernel.ld:3 | an allowed run uses the reserved interrupt stack to its last byte, and then every further interrupt is refused |
| Keyboard.KeyboardDriver.HandleKeyboardInterrupt | drivers/keyboard/keyboard.cpp:281-310 | by status and scancode: nothing without data, a prefix is remembered, with 64 events waiting the code is dropped, otherwise one event is added whose code is the low seven bits, pressed iff the eighth is clear, extended iff a prefix came before; tail = (head + count) mod 64 |
| Keyboard.KeyboardDriver.PollKeyboardEvent | drivers/keyboard/keyboard.cpp:318-327 | the oldest event is taken and the others stay, or there is none and nothing changes |
| Keyboard.RingPush | drivers/keyboard/keyboard.cpp:161-172 | storing at the tail appends to the queue, around the end of the storage |
| Keyboard.EveryInterleaving | drivers/keyboard/keyboard.cpp:281-327 | events polled followed by events waiting are the events accepted, in order, and the pure decoding of the scancodes kept; they are the decoding of all scancodes iff the queue never overflowed |
| Keyboard.NothingDropped | drivers/keyboard/keyboard.cpp:295 | the queue holds 64 events: nothing is dropped before |
| Keyboard.EventsByCode | drivers/keyboard/keyboard.cpp:288-309 | for every sequence of scancodes each one that is no prefix is one event in its place: pressed iff below 0x80, its code without the release bit, extended iff the scancode before it is 0xE0 |
| Keyboard.MapKeyIs | drivers/internal/keyboard_key_list_n_map.h:3-86 | the key of a code is the one the driver's two lists give it |
| Keyboard.ModifiersByCode | drivers/keyboard/keyboard.cpp:174-240 | after every sequence of scancodes each of the six modifiers is down iff the last of its make and break codes is the make code, and caps lock is on iff it went down an odd number of times |
| Keyboard.ModifiersTrackKeys | drivers/keyboard/keyboard.cpp:174-220 | a modifier bit is set iff the last event of its key is a press |
| Keyboard.CapsFlipsOncePerPress | drivers/keyboard/keyboard.cpp:221-235 | caps lock is on iff it was pressed an odd number of times, not counting repeats |
| Keyboard.EventModifiers | drivers/keyboard/keyboard.cpp:297-308 | every event carries the modifiers as its own scancode leaves them |
| Keyboard.OverflowMisleads | drivers/keyboard/keyboard.cpp:289-302 | after an overflow a plain key can be taken for an extended one |
| LineEditor.Input.AddCharacter | terminal/input.cpp:36-47 | the character is inserted at the cursor unless the buffer is full |
| LineEditor.Input.AddString | terminal/input.cpp:50-66 | the string is inserted at the cursor unless it would fill the buffer |
| LineEditor.Input.DeleteCharacter | terminal/input.cpp:69-76 | the character before the cursor is deleted, if there is one |
| LineEditor.Input.TrimTail | terminal/input.cpp:88-93 | exactly the spaces at the end are dropped |
| LineEditor.Input.ApplyKey | terminal/input.cpp:96-245 | what each key does to the buffer, for every valid buffer: the edit of the ideal editor, whose laws are the rows below; enter drops the trailing spaces |
| LineEditor.Input.ApplyKeys | terminal/input.cpp:96-131 | for every sequence of keys the buffer holds what the ideal editor holds, zero-terminated and at most 128 long, also when it fills up; enter leaves the line without trailing spaces |
| LineEditor.KeysThatEdit | terminal/input.cpp:36-175 | escape drops the text, backspace the character before the cursor, tab inserts four spaces while the text stays below 128, a character goes in at the cursor up to 128, and nothing happens after enter |
| LineEditor.NavigationKeepsText | terminal/input.cpp:206-251 | no sequence of navigation keys changes the text or takes the cursor out of it |
| LineEditor.ArrowsMove | terminal/input.cpp:226-237 | n arrows move the cursor by n places, or to the end of the text on that side |
| LineEditor.ArrowsUndo | terminal/input.cpp:226-237 | left and right undo each other except at the end where the first of them does nothing |
| LineEditor.TypedAtTheEnds | terminal/input.cpp:206-245 | a character typed after home comes before the text, after end behind it |
| LineEditor.TypedAfterLefts | terminal/input.cpp:36-47 | a character typed n times left of the end goes n places before it |
| LineEditor.TypedAfterRights | terminal/input.cpp:36-47 | a character typed n times right of the start goes n places behind it |
| LineEditor.TypedFills | terminal/input.cpp:36-47 | typing a text of any length at the end of a line keeps as much of it as there is room for |
| LineEditor.Input.HandleText | terminal/input.cpp:109-121 | buffer and row show the new line and nothing else on the screen changes; when the buffer is full nothing changes, wherever the line stands |
| LineEditor.Input.HandleBackspace | terminal/input.cpp:146-159 | buffer and row show the line without the character; at the start of the line nothing changes |
| LineEditor.Input.HandleEscape | terminal/input.cpp:134-143 | buffer and row are empty |
| LineEditor.Input.HandleTab | terminal/input.cpp:162-175 | buffer and row show four more spaces; when they are refused nothing changes, wherever the line stands |
| LineEditor.Input.StartDataReceiving | terminal/input.cpp:96-131 | for every sequence of keys under which the line stays in its row, buffer and row follow the ideal editor, until enter leaves the line without trailing spaces |
| LineEditor.RenderInRow | terminal/output.cpp:21-28 | printable text that stays in the row writes exactly its cells, code in the low byte and colour in the high one |
| LineEditor.BackspacesUndo | terminal/input.cpp:50-76 | as many backspaces as characters inserted restore the line |
| Timer.SleepExactIff | kernel/timer.cpp:47-71 | the ticks asked for are the time rounded up, saturating, for every duration iff the frequency is at most 4 299 265 Hz |
| Timer.StopwatchExactIff | tools/stopwatch.h:21-45 | the milliseconds reported are the time rounded down, saturating, for every interval iff the frequency is at most 4 294 968 Hz |
| Timer.SleptIntervalReported | kernel/timer.cpp:47-71 | at up to 1000 Hz a slept interval is reported as at least the time asked for and less than one tick more |
| Timer.TimerState.SleepTicks | kernel/timer.cpp:38-45 | the wait ends at exactly the first halt by which the ticks that have passed, modulo 2^32, are as many as wanted, also across a wrap of the counter; without the modulo when no halt steps over the window |
| Timer.SeenInTimeIff | kernel/timer.cpp:43 | with at most so many interrupts in one halt the wait always ends in time iff that bound is at most 2^32 less the wanted ticks |

## Left out

- Port input and output, and the set-up of the PIC, PIT, GDT, IDT, keyboard controller and CRT registers; the display start register alone is a field of the terminal.
- Vector instructions as such: a vector is 16 or 32 bytes that are read, compared or written.
- Search.FindContiguousFrames: asks that the bitmap and 32 bytes after it lie below 4 GiB and that it has at most 128 KiB, which initialization ensures.
- Pmm.PhysicalMemoryManager.Initialize: asks that the kernel image is not empty and that bitmap and rounding fit below 4 GiB behind it; the memory under the bitmap is a fresh array.
- CallGraph.StackCalculator.Analyse: asks for an acyclic graph, because on a cyclic one the recursive depth need not return; `FindAndRelax` asks for none.
- CallGraph.StackCalculator.GetSubtreeDepth: asks for an acyclic graph, because on a cyclic one it does not return.
- The reading of `.ci` files; every callee is assumed to be a node. The two lists of handlers are parameters, so that the declared size of 13 for a list of 18 is the caller's.
- Vga.VgaTextBuffer.RemoveLastChar: asks for a cursor that is not at the top left, where the step back is wrong.
- LineEditor.Input.StartDataReceiving: the agreement of row and buffer is stated while prompt and text fit in one row, because beyond it the cursor moves are wrong; `ApplyKeys` states the buffer's side for all keys.
- LineEditor.Input.HandleText: likewise where the character is accepted.
- LineEditor.Input.HandleTab: likewise where the spaces are accepted.
- LineEditor.Input.HandleBackspace: likewise where there is a character to delete.
- LineEditor.Input.HandleEscape: likewise; `ApplyKey` states the buffer's side.
- LineEditor.Input.AddString: strings of 256 characters or more, whose length wraps in 8 bits, and the empty one; the editor only adds four spaces.
- LineEditor.Input.TrimTail: the cursor may stand behind the end afterwards, as in the source, until the buffer is reset.
- Interrupts.EveryRunFits: a handler is assumed to write only its own part of the stack, within its raw size; the frame that the processor pushes for an interrupt that is then refused lies below the reserved stack, and the machine halts with it.
- The translation of keys to characters, which is two tables.
- Number printing, the logger, the shell, the exception dump, the heap and the memory manager's own diagnostic function.
