# A verified model of the bootloader's core

The bootloader carries its own small C library. This project models the parts of it that have
something to prove, each in the form the C code has: what is rewritten in place is a class or an array
with methods, what is computed is a function, and what is interleaved is a state machine over steps.
Every method is tied to a function of its inputs or of the old state, and the properties are lemmas about
those functions, or invariants over every run.

| part | modules |
|---|---|
| first-fit heap | `Memory`, `HeapLayout` (one call, on the node list), `HeapRuns` (every run), `HeapCalls` (each call told by the blocks in use), `Heap` (the headers in the bytes of the region) |
| intrusive lists | `Rings`, `RingWorld` (every run), `Hlists`, `HlistRuns` (every run), `ListLaws` (how the operations relate) |
| text terminal | `IdealTerminal` (an unbounded page), `PageLaws` (its control characters), `Screens` (80x25 cells and a cursor that may leave them), `Terminal` (the video memory and the cursor registers) |
| numbers and formatters | `Division`, `Bits`, `Numerals`, `DigitLaws`, `NumberText`, `Format` (one recursive definition), `Formatters` (vprintf), `Sprintf` (vsprintf), `Conversions` (the text of each directive), `TimeText` |
| clock and soft timer | `Clock`, `SoftTimer` (steps of the waiter against interrupts), `AutoRewind` (period after period), `TimerWaiter` (the same on the fields) |
| disk | `Chs`, `HdRead` |
| command line | `LineInput`, `EchoScreen`, `SplitLine` |

`dafny verify dfyconfig.toml` checks all of it.

## How to read the model

* **Heap.** The header is 12 bytes and the region 4096, as on i386. An offset is an address less that of
  `heap_list`. `HeapLayout.Take`, `Release` and the other functions on node lists say what one call does;
  the class `Heap.Allocator` does it on bytes, reading and writing every `next`, `size` and `used` in
  band, and each of its methods is proved to do what the function says and to leave the bytes of every
  block in use alone. `alloc.c:48` subtracts `heap_node_t` pointers; C gives that a meaning for whole
  elements only (section 6.5.6 of ISO/IEC 9899:2011). The model reads it as the quotient rounded down,
  and the lemmas ask only that the byte difference is a multiple of the header size where that line is
  reached (`WholeGap`), which is weaker than asking for aligned requests (`AlignedRunWhole`). A run
  holds the caller's own stores into its blocks as well as its calls.
* **Rings.** A ring is the sequence of its nodes, an absorbed ring the empty sequence. Poison pointers
  are null (or `Poisoned` for a slot).
* **Terminal.** Characters are 7-bit. A page only grows at the bottom; the screen is to show its last 25
  rows. `Screens.Typed` is what a character does to the screen and the cursor, the cursor being anywhere;
  `missed` tells that a cell outside the video memory has been written.
* **Formatters.** A format is a string without its NUL; `Formatted` says the whole text. An argument
  carries the type it was passed with; a directive that asks for another type is undefined in C.
* **Soft timer.** The while condition of `timer.c.h:79-84` is four separate reads; a tick, another
  interrupt or an outside `timer_disarm` may come between any two steps. `armed` counts the ticks that
  came while the timer ran, since the last start or rewind. A schedule is `Prompt` when ticks come only
  while the waiter is halted, at most one between the check that goes on waiting and its `hlt`, or while
  the timer is stopped.
* **Disk.** The BIOS is the class `HdRead.Bios`: it decodes the registers, may fail a try, and reports a
  number of sectors other than the one asked for when it does.

## What the code does that one would not expect

Where the code departs from what one would expect of it, the model keeps the code, and a lemma says
exactly when the expectation holds.

* A split whose remainder is not a whole number of headers breaks the tiling (`TakeTilesIff`, over runs
  `GapsWholeIff`); `TilingLost` is a run that does it.
* Growth by `realloc` copies to NULL when nothing fits; that is the only way a caller that passes
  only what it holds can be stopped (`HeldCallsStop`); `CopiesToNull` is a run that does it.
* `calloc` multiplies in 32 bits, and clears what that product says (`CallocExactIff`).
* A backspace at column 0 leaves the cursor off the screen, and nothing else does (`StaysOnIff`). From
  there `scrollifneeded`, which tests for equality, may miss both edges: `MissesLater` is a family of runs
  that write outside the video memory without a backspace in the top left corner, `RowLost` a row too low.
  A run without such backspaces writes no cell outside (`CleanRunShows`); that this is necessary is not
  claimed, as a return may bring the cursor back in time.
* `strcpy` writes no NUL, so `vsprintf` puts one behind its text when the format ends with `%c`, `%%` or
  an empty `%s`, and never else (`EndsInNulIff`).
* Zeros are filled in front of a minus sign, so that a negative number need not read back
  (`FilledSignIff`).
* A width is the sum of its digits (`WidthIsNumber`), a width below the number of digits wraps around
  (`PaddingFills`), and `%b` prints base 10 (`BinaryIff`).
* A wait whose nanoseconds are above a second may be cut short (`NeverShortIff`); an outside
  `timer_disarm` makes the handler run early (`DisarmFiresEarly`).
* `clock_gettime` reads two fields; a tick between them is harmless unless it starts a second
  (`TornReadIff`).
* `hd_read` refreshes the size of a request only while more than a track is left (`PlanWorksIff` names
  the transfers that work).
* A BIOS reply of 256 heads or no sectors is a geometry with a zero divisor (`GeometryUsableIff`).
* The array for arguments has ten places, and a command of more than ten fields uses an eleventh
  (`ReadCommand`); such commands fit the line (`ElevenWords`).
* A check of the soft timer that begins after the time has come may still go on waiting
  (`TornCheckWaits`), which costs one tick (`LateBy`).

## Model

| member | source | states |
|---|---|---|
| `Heap.Allocator.constructor` | common/sys/heap.c:8-14 | the bytes written are the one-node list of the empty run: next 0, size 4084, not used |
| `Heap.Allocator.Malloc` | libc/stdlib/alloc.c:10-81 | on the bytes: the list becomes that of the first fit, taken or split, the pointer is that node's payload or NULL, and no block in use changes a byte |
| `Heap.Allocator.TakeAt` | libc/stdlib/alloc.c:36-62 | the header stores of a split leave the split list in band and touch no block in use |
| `Heap.Allocator.RestSize` | libc/stdlib/alloc.c:44-49 | the size given to the remainder, at the end of the list and before another node |
| `Heap.Allocator.Calloc` | libc/stdlib/alloc.c:83-92 | as malloc of the 32-bit product; all bytes of the product are zero; other blocks keep theirs |
| `Heap.Allocator.Free` | libc/stdlib/alloc.c:137-180 | the list becomes the released one; a free node is a panic that changes no byte; an unknown pointer is ignored; blocks in use keep their bytes |
| `Heap.Allocator.Search` | libc/stdlib/alloc.c:141-179 | the walk finds the node that owns the payload address, and the node before it |
| `Heap.Allocator.ReleaseAt` | libc/stdlib/alloc.c:151-167 | clearing the flag and the two merges leave the released list in band, and write two headers at most |
| `Heap.Allocator.Merge` | libc/stdlib/alloc.c:159-166 | a merge of two neighbours stores the absorbed list and writes one header |
| `Heap.Allocator.Realloc` | libc/stdlib/alloc.c:94-134 | NULL is malloc; a block held that is large enough stays, with its pointer; a growth gives it back for one new block, which has its old bytes as a prefix, and no other block changes; a block that cannot grow is copied to NULL, where the model stops |
| `Heap.Allocator.Grow` | libc/stdlib/alloc.c:114-120 | new block, copy, free of the old one: list, pointer, and the old bytes at the start of the new block; or the stop at line 117 |
| `Heap.Allocator.CopyBlock` | libc/stdlib/alloc.c:117 | the old payload arrives whole, as the two blocks do not overlap, and no header is written |
| `Heap.Allocator.Run` | libc/stdlib/alloc.c:10-180 | every run from heap_init on the bytes, with the caller's own stores in between: it follows the run of the lists and stops exactly where that does; between any two points of the run, a block in use all along holds what its caller has stored in it and else what it held; once all is given back the list is that of heap_init |
| `Heap.InBandUnique` | include/sys/heap.h:10-15 | the bytes of the region determine the list: two tilings stored in them are equal |
| `Heap.TakeInBand` | libc/stdlib/alloc.c:39-62 | the two headers of a split are all it takes to store the new list, and no other block changes |
| `Heap.AbsorbInBand` | libc/stdlib/alloc.c:156-167 | two words are all it takes to store the merged list |
| `Heap.HeaderWritesKeepBlocks` | libc/stdlib/alloc.c:150-167 | writes into two headers reach no payload in use |
| `Heap.Allocator.StoreByCaller` | libc/stdlib/alloc.c:34-62 | a store of the caller into a block it holds changes that byte, and the stored list stays |
| `HeapLayout.NodesAscend` | include/sys/heap.h:10-15 | in a tiling, nodes lie in address order |
| `HeapLayout.PayloadsDisjoint` | include/sys/heap.h:10-15 | payloads of different nodes do not overlap |
| `HeapLayout.FindPayload` | libc/stdlib/alloc.c:142-148 | a payload address belongs to one node only |
| `HeapLayout.TakeTilesIff` | libc/stdlib/alloc.c:41-53 | a split keeps the tiling if and only if line 48 subtracts over whole headers |
| `HeapLayout.TakeWaste` | libc/stdlib/alloc.c:36-62 | a node is split exactly if a byte besides the header is left; a block wastes at most a header, and that only unsplit; a remainder has at least one byte |
| `HeapLayout.TakeKeeps` | libc/stdlib/alloc.c:34-62 | an aligned request keeps tiling, coalescing and alignment |
| `HeapLayout.ReleaseKeeps` | libc/stdlib/alloc.c:150-167 | free keeps tiling and coalescing whatever the sizes |
| `HeapLayout.ReleaseShape` | libc/stdlib/alloc.c:150-167 | free turns the node and its free neighbours, up to three nodes, into one free node, and leaves the rest |
| `HeapLayout.ReleaseUsed` | libc/stdlib/alloc.c:150-167 | the blocks in use after free are those before, less the one released |
| `HeapLayout.MallocComplete` | libc/stdlib/alloc.c:21-72 | malloc returns NULL if and only if no vacant range holds a header and n bytes; else it hands out the lowest one |
| `HeapLayout.MallocThenFree` | libc/stdlib/alloc.c:36-62 | malloc, then free of its result, restores the identical list, split or not |
| `HeapLayout.NoUsedNodes` | common/sys/heap.c:8-14 | a coalesced tiling without used nodes is the list of heap_init |
| `HeapRuns.CallocExactIff` | libc/stdlib/alloc.c:85 | calloc asks for room for all members if and only if their product is a size_t; CallocWraps is an input |
| `HeapCalls.MallocAdds` | libc/stdlib/alloc.c:10-81 | if there is room, malloc adds one block of at least n bytes in a vacant range and nothing else; else nothing changes |
| `HeapCalls.CallocIsMalloc` | libc/stdlib/alloc.c:83-92 | calloc is malloc of the product less whole multiples of 2^32 |
| `HeapCalls.FreeRemoves` | libc/stdlib/alloc.c:137-180 | free takes exactly the block named away; a free node stops the run; an unknown pointer changes nothing |
| `HeapCalls.ReallocReplaces` | libc/stdlib/alloc.c:106-134 | a block large enough stays; a growth with room replaces exactly this block by one new block; without room the call stops |
| `HeapCalls.ReallocOfNone` | libc/stdlib/alloc.c:94-104 | realloc of NULL is malloc, of an unknown pointer nothing |
| `HeapRuns.StepSound` | libc/stdlib/alloc.c:10-180 | each call keeps tiling, coalescing, and that the blocks in use are those the caller holds |
| `HeapRuns.RunSound` | libc/stdlib/alloc.c:10-180 | the same over every run whose splits are over whole headers |
| `HeapRuns.GapsWholeIff` | libc/stdlib/alloc.c:41-53 | every malloc of a run leaves a tiling behind if and only if every split of the run is over whole headers |
| `HeapRuns.TilingLost` | libc/stdlib/alloc.c:45-49 | a run of four calls that ends in a list that does not tile |
| `HeapRuns.AlignedRunWhole` | libc/stdlib/alloc.c:45-49 | requests of whole headers meet that demand over every run, and keep every header aligned |
| `HeapRuns.RunDrained` | libc/stdlib/alloc.c:153-167 | once every block held is given back, in any order and after any history, the list is that of heap_init |
| `HeapRuns.HeldCallsStop` | libc/stdlib/alloc.c:94-131 | with pointers the caller holds, a call is stopped if and only if it is a realloc that must grow and nothing fits |
| `HeapRuns.CopiesToNull` | libc/stdlib/alloc.c:115-117 | a run that ends in the copy to NULL |
| `Memory.MemSet` | libc/string/mem_operations.c:4-11 | exactly the n bytes are set |
| `Memory.MemCpy` | libc/string/mem_operations.c:13-21 | the loop is the ascending copy |
| `Memory.MemCpyRev` | libc/string/mem_operations.c:23-31 | the loop is the descending copy |
| `Memory.LowByteFirst` | include/sys/heap.h:10-15 | a word in memory has its lowest byte first |
| `Memory.CopyUpBytes` | libc/string/mem_operations.c:13-21 | every byte of an ascending copy, overlapping or not: beyond the overlap distance it repeats |
| `Memory.MemCpyMovesIff` | libc/string/mem_operations.c:13-21 | memcpy is a correct move of every content if and only if the destination does not start strictly inside the source |
| `Memory.MemCpyRevMovesIff` | libc/string/mem_operations.c:23-31 | memcpyrev is one if and only if the source does not start strictly inside the destination |
| `Rings.Insert` | include/utils/list.h:67-75 | a node put between neighbours: the ring is the sequence with it inserted |
| `Rings.ListAdd` | include/utils/list.h:90-93 | insertion after any position of the ring |
| `Rings.ListAddTail` | include/utils/list.h:104-107 | append |
| `Rings.DelEntry` | include/utils/list.h:116-132 | the ring is the sequence without the entry |
| `Rings.ListDel` | include/utils/list.h:134-143 | removal, with the entry poisoned |
| `Rings.ListDelInit` | include/utils/list.h:172-176 | removal, with the entry a ring of its own |
| `Rings.ListMove` | include/utils/list.h:183-188 | the entry leaves its ring for the front of a list, another or the same |
| `Rings.ListMoveTail` | include/utils/list.h:194-199 | the same, to the end |
| `Rings.ListReplace` | include/utils/list.h:152-159 | substitution in the sequence, a lone entry included |
| `Rings.ListReplaceInit` | include/utils/list.h:161-166 | substitution, with the old entry a ring of its own |
| `Rings.TestsOnRing` | include/utils/list.h:206-261 | list_empty, list_empty_careful, list_is_singular and list_is_last answer by length and position |
| `Rings.ListRotateLeft` | include/utils/list.h:244-252 | the first entry goes to the end |
| `Rings.ListCutPosition` | include/utils/list.h:289-301 | prefix up to the entry on one ring, the rest on the other; too short a list is left alone; the head as entry gives an empty list |
| `Rings.CutAt` | include/utils/list.h:263-274 | the cut itself: two rings out of one |
| `Rings.SpliceAt` | include/utils/list.h:303-315 | the entries of one ring between two neighbours of another |
| `Rings.ListSplice` | include/utils/list.h:322-327 | concatenation at the front; the emptied head keeps its links |
| `Rings.ListSpliceTail` | include/utils/list.h:334-339 | concatenation at the end |
| `Rings.ListSpliceInit` | include/utils/list.h:348-356 | concatenation at the front, with the emptied head a ring of its own |
| `Rings.ListSpliceTailInit` | include/utils/list.h:365-372 | concatenation at the end, with the emptied head a ring of its own |
| `Rings.CutThenSplice` | include/utils/list.h:289-327 | splicing a cut part back at the head restores every next and prev of the list |
| `Rings.SameLinks` | include/utils/list.h:54-75 | a sequence is a ring in one way only, so the links are determined |
| `Rings.RotatedTimesShape` | include/utils/list.h:244-252 | the list after any number of rotations less than its length |
| `Rings.RotateFully` | include/utils/list.h:244-252 | one rotation for each entry restores every next and prev of the list |
| `ListLaws.AddThenDel` | include/utils/list.h:90-176 | a node added is the first entry, or the last; deleting it restores the list |
| `ListLaws.RotatedAdd` | include/utils/list.h:90-107 | list_add and a rotation are list_add_tail |
| `ListLaws.MoveIsDelAdd` | include/utils/list.h:183-199 | a move is a deletion and an addition |
| `ListLaws.RotateIsMove` | include/utils/list.h:244-252 | a rotation moves the first entry to the tail |
| `ListLaws.ReplaceTwice` | include/utils/list.h:152-166 | replacing back restores both |
| `ListLaws.SpliceIsMoves` | include/utils/list.h:348-372 | a splice is a move of each entry in turn |
| `ListLaws.CutThenSpliced` | include/utils/list.h:289-356 | what has been cut off goes back by a splice |
| `ListLaws.AddAndDel` | include/utils/list.h:90-176 | list_add, then list_del_init: every link of the list is what it was |
| `RingWorld.ApplyConserves` | include/utils/list.h:67-372 | no operation loses a node or puts one on two rings |
| `RingWorld.RunConserves` | include/utils/list.h:67-372 | the same over every run |
| `RingWorld.Execute` | include/utils/list.h:67-372 | each call of Op does its sequence operation on many disjoint rings and leaves the others |
| `RingWorld.Run` | include/utils/list.h:67-372 | every run of the operations of Op, the cut included, keeps every ring well formed and disjoint, and performs the sequence operations |
| `Hlists.Unhook` | include/utils/list.h:643-650 | given the node, its list loses exactly it, and each pprev is right again |
| `Hlists.HlistDel` | include/utils/list.h:652-657 | removal, with the node poisoned, not unhashed |
| `Hlists.TestsOnHlist` | include/utils/list.h:633-641 | hlist_empty and hlist_unhashed answer by the sequence |
| `Hlists.HlistDelInit` | include/utils/list.h:659-665 | removal from whatever list has it; a node on none is left as it is |
| `Hlists.HlistAddHead` | include/utils/list.h:667-675 | cons |
| `Hlists.HlistAddBefore` | include/utils/list.h:678-685 | insertion before a node known only by itself |
| `Hlists.HlistAddAfter` | include/utils/list.h:687-696 | insertion after a node |
| `Hlists.HlistMoveList` | include/utils/list.h:708-715 | the list changes heads |
| `Hlists.UniqueSlot` | include/utils/list.h:617-715 | of all links of all lists, the one that leads to a node is the one its pprev names, and no other |
| `ListLaws.HlistAddThenDel` | include/utils/list.h:659-685 | a node added stands before the node named, and deleting it restores the lists |
| `ListLaws.HlistAddsAgree` | include/utils/list.h:667-696 | the three additions are one at different places |
| `ListLaws.HlistFirst` | include/utils/list.h:667-675 | a node added at the head is the first |
| `ListLaws.MoveListBack` | include/utils/list.h:708-715 | moving a list back restores both heads |
| `HlistRuns.RemovedEverywhere` | include/utils/list.h:659-665 | removing a node wherever it is, is removing it at its place |
| `HlistRuns.EffectConserves` | include/utils/list.h:627-715 | no operation loses a node or puts one on two lists |
| `HlistRuns.ExecuteDel` | include/utils/list.h:659-665 | hlist_del_init, given the node alone, on many lists |
| `HlistRuns.Run` | include/utils/list.h:627-715 | every run does the sequence operations and keeps every pprev |
| `Bits.AndBits` | arch/x86/lib/vga.c:19-20 | And is the operator of C, bit by bit |
| `Bits.OrBits` | arch/x86/lib/vga.c:19-23 | Or is the operator of C, bit by bit |
| `Terminal.ColorBits` | arch/x86/lib/vga.c:19-20 | mask, shift and cut to a byte make two fields of four bits |
| `Terminal.EntryBytes` | arch/x86/lib/vga.c:22-23 | a cell in memory is the character byte, and the colour byte behind it |
| `Terminal.Vga.SetColor` | arch/x86/lib/vga.c:43-46 | the low four bits of the colour are the foreground's, the high four the background's, whatever else those have |
| `Terminal.Vga.PutChar` | arch/x86/lib/vga.c:55-59 | one cell changes, inside the memory: its bytes become the character and the colour |
| `Terminal.Vga.FillLine` | arch/x86/lib/vga.c:61-70 | exactly one line is filled, with the cells given or blanks |
| `Terminal.Vga.ClearScreen` | arch/x86/lib/vga.c:72-81 | every character byte is a space, every attribute byte the colour |
| `Terminal.Vga.ScrollUp` | arch/x86/lib/vga.c:83-90 | every line moves up one and the last is filled: the overlapping ascending copy is correct |
| `Terminal.Vga.ScrollDown` | arch/x86/lib/vga.c:92-99 | every line moves down one and the first is filled: the overlapping descending copy is correct |
| `Terminal.Vga.MvCursor` | arch/x86/lib/vga.c:101-113 | register 0xe holds the high and 0xf the low byte of row * 80 + column in 16 bits |
| `Terminal.Tty.constructor` | arch/x86/lib/tty.c:28-49 | the first screen is blank, in green, with the cursor at the top left and the hardware cursor on it |
| `Terminal.Tty.SetTextColor` | arch/x86/lib/tty.c:51-63 | the colour of what comes next; nothing else of the screen changes |
| `Terminal.Tty.ClearScreen` | arch/x86/lib/tty.c:151-157 | the screen is blank in the colour set, with both cursors at the top left |
| `Terminal.Tty.ScrollIfNeeded` | arch/x86/lib/tty.c:169-182 | wrap, scroll and hardware cursor are the step Settled of the screen, wherever the cursor is |
| `Terminal.Tty.PutChar` | arch/x86/lib/tty.c:65-127 | for every character and every cursor, on the screen or off it: cells, cursor and colour become those of the step Typed, and the hardware cursor is where the cursor is, in 16 bits |
| `Terminal.Tty.PutTab` | arch/x86/lib/tty.c:85-92 | spaces to the next multiple of four, the 32-bit wrap of the sum included |
| `Terminal.Tty.Erase` | arch/x86/lib/tty.c:100-112 | the cursor goes back, from the start of a row to column 80 of the one above, and the cell there is blanked if it lies in the video memory |
| `Terminal.Tty.PutsDelim` | libc/stdio/basic_out.c:19-27 | a whole run of characters is typed, up to the delimiter |
| `Terminal.Tty.Puts` | libc/stdio/basic_out.c:19-27 | printed text stands in the character bytes right before the cursor, and the colour in the attribute bytes, over ends of lines and through every scroll |
| `Screens.TypedShows` | arch/x86/lib/tty.c:65-127 | on a screen that shows the last 25 rows of the ideal page, every character does what it does on the page, unless it is a backspace at column 0: that one takes the cursor off the screen |
| `Screens.CleanRunShows` | arch/x86/lib/tty.c:65-127 | over every run without such a backspace the screen goes on showing the last 25 rows of the page and its cursor, and no cell outside the video memory is written |
| `Screens.StaysOnIff` | arch/x86/lib/tty.c:65-127 | over every run: the cursor is on the screen after every part of it if and only if no backspace meets column 0 |
| `Screens.CornerMisses` | arch/x86/lib/tty.c:100-112 | from a screen that shows a page, one character writes a cell outside if and only if it is a backspace in the top left corner |
| `Screens.MissesLater` | arch/x86/lib/tty.c:120-126 | a backspace at the start of the second row and n letters: a cell outside is written if and only if n is more than 1920 |
| `Screens.RowLost` | arch/x86/lib/tty.c:77-82 | a newline at column 80 of the last row takes the row past the test for the height |
| `Screens.TypedAppend` | arch/x86/lib/tty.c:65-127 | a run on any screen can be cut anywhere |
| `PageLaws.TabStops` | arch/x86/lib/tty.c:85-92 | a tab goes to the next multiple of four over blank cells |
| `PageLaws.ReturnAndNewline` | arch/x86/lib/tty.c:70-83 | a return goes to the start of the row, a newline one row down, and neither changes a cell |
| `PageLaws.BackspaceErases` | arch/x86/lib/tty.c:100-112 | a backspace takes the character before it back and leaves a blank |
| `PageLaws.BellAndDelete` | arch/x86/lib/tty.c:94-118 | bell and delete do nothing |
| `PageLaws.Printed` | arch/x86/lib/tty.c:120-126 | every other character stands where the cursor was, which goes one on |
| `IdealTerminal.PutAllAppend` | arch/x86/lib/tty.c:65-127 | a run can be cut anywhere: it comes to its first part, and from there to its second |
| `IdealTerminal.HistoryKept` | arch/x86/lib/tty.c:65-127 | a row the cursor has left never changes, over every run, and the cursor never goes back up |
| `IdealTerminal.TextRunsOn` | arch/x86/lib/tty.c:120-126 | printed text stands cell after cell across line ends, and the cells before it are unchanged |
| `NumberText.StrNRev` | libc/string/str_operations.c:141-156 | the n characters are reversed in place, and no other changes |
| `NumberText.UIntToString` | libc/string/nb_to_str.c:4-29 | the buffer holds the digits of the number and a NUL, and no other character changes |
| `NumberText.IntToString` | libc/string/nb_to_str.c:31-43 | the same with the sign |
| `NumberText.StrToULL` | libc/string/str_to_nb.c:5-33 | the value modulo 2^64 of the longest prefix of digits, and where it ends |
| `NumberText.StrToLL` | libc/string/str_to_nb.c:35-51 | the same with the sign |
| `NumberText.WriteThenRead` | libc/string/nb_to_str.c:4-29 | a number written to a buffer is read back, with endptr at the NUL, and 65 characters are enough |
| `Numerals.DigitChar` | libc/string/nb_to_str.c:17-20 | ten digits, then capital letters |
| `Numerals.DigitValue` | libc/string/str_to_nb.c:17-22 | a digit of the base has a value below it (with ctype.c:208-225) |
| `Numerals.ValueOfDigits` | libc/string/nb_to_str.c:12-25 | the digits written have the value of the number |
| `Numerals.DigitsCanonical` | libc/string/nb_to_str.c:12-25 | no leading zero, capitals only, and "0" for zero alone |
| `Numerals.DigitsOfValue` | libc/string/nb_to_str.c:12-25 | every canonical numeral is the one written for its value |
| `Numerals.DigitsFit` | libc/stdio/printf.c:27 | every 64-bit number has at most 64 digits in any base |
| `DigitLaws.DigitsByName` | libc/ctype/ctype.c:208-225 | the digits of each base by name, in either case, and their values |
| `DigitLaws.WrittenByName` | libc/string/nb_to_str.c:17-20 | the digits that are written by name, in capitals |
| `DigitLaws.CaseIgnored` | libc/string/str_to_nb.c:12-26 | what was written reads the same with any of its letters in lower case |
| `DigitLaws.PowerDigits` | libc/string/nb_to_str.c:12-25 | a power of the base is written as one and zeros |
| `DigitLaws.ParsedWraps` | libc/string/str_to_nb.c:12-32 | a number of any size is read modulo 2^64 |
| `DigitLaws.SignedWraps` | libc/string/str_to_nb.c:35-51 | strtoll of any number is the one of its range that differs by multiples of 2^64 |
| `DigitLaws.SignInFront` | libc/string/nb_to_str.c:31-43 | a minus sign in front for numbers below zero, and canonical digits |
| `Numerals.RoundTrip` | libc/string/str_to_nb.c:5-33 | strtoull of what uinttostring wrote is the number, with endptr behind the last digit |
| `Numerals.SignedRoundTrip` | libc/string/str_to_nb.c:35-51 | strtoll of what inttostring wrote is the number, for all but the least |
| `Format.Parse` | libc/stdio/printf.c:32-66 | the directive ends at its conversion character, and a zero-fill width is 1 to 29 |
| `Format.PaddingFills` | libc/stdio/printf.c:170-176 | padding fills the number up to the width if and only if the digits are not more than it; PaddingWraps is an input |
| `Format.WidthIsNumber` | libc/stdio/printf.c:50-55 | the width loop reads a run of digits as the number written if and only if all digits but the last are 0, sums beyond 20 included; WidthOfTen is an input |
| `Format.BinaryIff` | libc/stdio/printf.c:108-112 | the number of %b is in base 2 if and only if it is 0 or 1 |
| `Format.FormattedJoins` | libc/stdio/printf.c:30-193 | one call with two formats joined prints what two calls print, when the first uses up its arguments and neither panics |
| `Format.WidthIsDigitSum` | libc/stdio/printf.c:50-55 | the width loop takes a run of digits to its sum, below 21 |
| `Format.WidthStops` | libc/stdio/printf.c:50-55 | the loop adds digits up to the first that is none, or until their sum is 21 or more, and no longer |
| `Conversions.UnsignedText` | libc/stdio/printf.c:98-181 | %u and %b print the number in base 10, %x and %p in base 16, filled up with zeros, with 0x for #x and #p and 1'b for #b; the digits read back |
| `Conversions.SignedText` | libc/stdio/printf.c:83-96 | %d and %ld print the number with its sign, and it reads back |
| `Conversions.FilledSignIff` | libc/stdio/printf.c:170-179 | zeros go in front of the sign: filled up, a number reads back if and only if it is not negative or needs no zeros |
| `Conversions.StringText` | libc/stdio/printf.c:152-163 | %s prints the string, or null |
| `Conversions.CharText` | libc/stdio/printf.c:145-150 | %c prints the low byte |
| `Conversions.PercentText` | libc/stdio/printf.c:184-189 | %% prints a percent sign |
| `Conversions.OthersStop` | libc/stdio/printf.c:126-130 | any other symbol ends the call, and the text in front of it is not printed |
| `Formatters.StrChr` | libc/string/str_operations.c:18-31 | the first occurrence, or none |
| `Formatters.StrLen` | libc/string/str_operations.c:4-16 | the length of the string |
| `Formatters.ParseDirective` | libc/stdio/printf.c:32-66 | the flag, width and length reads parse the directive |
| `Formatters.NumberFits` | libc/stdio/printf.c:27 | the text of every argument fits buf_nbtostring |
| `Formatters.Convert` | libc/stdio/printf.c:83-117 | the buffer holds the number of the directive |
| `Formatters.Console.Puts` | libc/stdio/basic_out.c:19-27 | exactly the characters before the delimiter are emitted |
| `Formatters.Console.Turn` | libc/stdio/printf.c:30-190 | one turn emits the text of one directive, or panics and emits nothing of it |
| `Formatters.Console.VPrintf` | libc/stdio/printf.c:17-194 | vprintf emits exactly the text of the format, and panics if and only if it meets an unknown conversion |
| `Sprintf.StrCpy` | libc/string/str_operations.c:75-89 | the characters are copied, without the NUL |
| `Sprintf.StrCpyDelim` | libc/string/str_operations.c:106-121 | the characters before the delimiter are copied, with a NUL |
| `Sprintf.WriteNumber` | libc/stdio/sprintf.c:166-182 | padding and digits |
| `Sprintf.Turn` | libc/stdio/sprintf.c:30-193 | one turn writes the text of one directive, and whether a NUL stands behind it |
| `Sprintf.VSprintf` | libc/stdio/sprintf.c:17-197 | vsprintf writes exactly the text of the format; behind it stands a NUL if EndsInNul says so, else what was there; nothing else changes |
| `Sprintf.PrintBoth` | libc/stdio/sprintf.c:17-197 | vsprintf writes the characters vprintf emits, for every format and argument list |
| `Sprintf.EndsInNulIff` | libc/stdio/sprintf.c:132-196 | a NUL stands behind the text if and only if the format ends with a directive that is %c, %% or the %s of an empty string; never after a number or plain text |
| `Conversions.NulAfter` | libc/stdio/sprintf.c:132-196 | the same for one directive with any flags and text behind it |
| `Clock.TicksClosedForm` | arch/x86/lib/clock.c:71-77 | the clock after any number of ticks, the wrap of the seconds included |
| `Clock.ClockExactIff` | arch/x86/lib/clock.c:67-77 | the clock shows the time passed if and only if its seconds have not wrapped |
| `Clock.TornReadIff` | arch/x86/lib/clock.c:58-62 | a tick between the two reads does harm if and only if it starts a new second |
| `Clock.SystemClock.IsrClockInt` | arch/x86/lib/clock.c:67-89 | one tick of the counter and the clock, and of the time spent if the timer runs |
| `Clock.SystemClock.ClockGetTime` | arch/x86/lib/clock.c:58-62 | a normalized time, exact if and only if the seconds have not wrapped |
| `Clock.SystemClock.TimerWind` | arch/x86/lib/timer.c.h:31-40 | stopped, nothing spent, with kind and wait set |
| `Clock.SystemClock.TimerArm` | arch/x86/lib/timer.c.h:42-46 | running, nothing spent |
| `SoftTimer.ExitsWhenDue` | arch/x86/lib/timer.c.h:79-84 | for a normalized wait the condition fails if and only if the time has come |
| `SoftTimer.NeverShortIff` | arch/x86/lib/timer.c.h:79-84 | over all runs without an outside disarm, no wait is cut short if and only if its nanoseconds are at most a second or its seconds the last before the wrap |
| `SoftTimer.NextKeeps` | arch/x86/lib/timer.c.h:67-101 | each step of the waiter, tick, interrupt or disarm keeps the invariant |
| `SoftTimer.RunKeeps` | arch/x86/lib/timer.c.h:67-101 | the invariant holds over every interleaving |
| `SoftTimer.NeverEarly` | arch/x86/lib/timer.c.h:78-98 | for all those waits, the handler never runs with less than wait spent since the last start or rewind, unless disarmed from outside |
| `SoftTimer.FiresOnce` | arch/x86/lib/timer.c.h:88-98 | over every interleaving and for every wait: a one-shot timer has fired exactly once when it returns, and not twice before; an auto-rewind timer returns only if disarmed |
| `SoftTimer.EveryHistoryFires` | arch/x86/lib/timer.c.h:78-98 | after every history in which the timer is stopped or its time has come, a checking waiter that is given its steps and an interrupt runs the handler with the time spent so far; a one-shot timer returns, with the handler run exactly once |
| `SoftTimer.DisarmFiresEarly` | arch/x86/lib/timer.c.h:54-57 | from every reachable state that checks and is not due, an outside disarm makes the handler run with the time spent so far; without it, and without a tick, it does not run |
| `SoftTimer.PromptNext` | arch/x86/lib/timer.c.h:79-92 | each step of a prompt schedule leaves at most one tick missed and no check torn |
| `SoftTimer.HandlerUncounted` | arch/x86/lib/timer.c.h:59-95 | while the handler runs and the timer is rewound, ticks are not counted |
| `AutoRewind.FiresEveryPeriod` | arch/x86/lib/timer.c.h:78-98 | m periods of as many ticks as make the wait complete give exactly m runs of the handler of a timer that rewinds itself, each after a whole period, and leave it waiting with nothing spent |
| `AutoRewind.EveryHistoryFiresAgain` | arch/x86/lib/timer.c.h:78-98 | after every history that has not left the loop, handlers run and disarms included, the handler runs again within one wait |
| `AutoRewind.PeriodEnds` | arch/x86/lib/timer.c.h:78-98 | from anywhere in a period the handler runs at its n-th tick, once, and the next period begins |
| `SoftTimer.FiresAt` | arch/x86/lib/timer.c.h:78-98 | with n ticks to go and time for the waiter to get back to its hlt, a one-shot timer runs its handler at the n-th tick, once, and returns |
| `SoftTimer.FiresOnTime` | arch/x86/lib/timer.c.h:42-101 | from timer_start, that is the first tick by which the time is complete |
| `SoftTimer.LateBy` | arch/x86/lib/timer.c.h:78-98 | over every interleaving, disarms included: each handler runs less than (m + 1) ticks behind its time, and (m + 2) if a check was torn, where m ticks fell outside halts since the last check that began before the time |
| `SoftTimer.LateNext` | arch/x86/lib/timer.c.h:67-101 | each step of the waiter, tick, interrupt or disarm keeps that bound |
| `SoftTimer.TornCheckWaits` | arch/x86/lib/timer.c.h:79-84 | a check that begins after the time may go on waiting, if a tick ends the second between its comparisons |
| `SoftTimer.NotLate` | arch/x86/lib/timer.c.h:79-92 | on every prompt schedule every handler runs with less than wait + 2 ticks spent |
| `TimerWaiter.Waiter.constructor` | arch/x86/lib/timer.c.h:31-52 | winding and starting the timer give the first state of the machine |
| `TimerWaiter.Waiter.TakeStep` | arch/x86/lib/timer.c.h:78-98 | each read and write of isr_timer_int on the fields of softtimer0 is one step of the machine |
| `TimerWaiter.Waiter.Play` | arch/x86/lib/timer.c.h:67-101 | every interleaving on the fields, clock interrupts included, does what the machine does |
| `TimeText.FractionReadsBack` | libc/stdio/printf.c:170-179 | the nanoseconds are padded to exactly nine digits; strtoull reads them back and stops behind them |
| `TimeText.TimeLine` | shell/time.c:17-19 | the whole line printed, for every clock reading |
| `TimeText.TimeReadsBack` | shell/time.c:17-19 | after any number of ticks before the wrap, strtoull reads the time passed back from the printed line, with endptr at the point between the fields |
| `Chs.LbaToChs` | common/block_dev.c:29-37 | in the field widths of CHS_t: the mixed-radix digits, an address on the disk |
| `Chs.LbaRoundTrip` | common/block_dev.c:29-45 | chstolba undoes lbatochs, which stays on the disk |
| `Chs.ChsRoundTrip` | common/block_dev.c:29-45 | lbatochs undoes chstolba, which stays below the number of blocks |
| `Chs.SameOrder` | common/block_dev.c:39-45 | block numbers are ordered as cylinder, head, sector |
| `Chs.PackCXBits` | arch/x86/lib/disk.c:106 | CX is what the masks, shifts and unions of the source make |
| `Chs.CylinderFieldBits` | arch/x86/lib/disk.c:86 | the cylinder field is what mask, shift and union make |
| `Chs.SectorFieldBits` | arch/x86/lib/disk.c:87 | the sector field is what the mask leaves of a byte |
| `Chs.RegistersRoundTrip` | arch/x86/lib/disk.c:86-106 | every address of every geometry comes through CX and the reply layout unchanged, and so does its block number |
| `Chs.GeometryRoundTrip` | arch/x86/lib/disk.c:86-88 | for every geometry: the last address of the disk, as the BIOS reports it, is read as the geometry |
| `Chs.GeometryUsableIff` | arch/x86/lib/disk.c:86-94 | a BIOS reply is a usable geometry if and only if it names a sector and at most 255 heads; HeadsWrap is an input |
| `HdRead.PlanWorksIff` | common/hd_drv.c:108-158 | the turns read within tracks and no more than is left if and only if the transfer is transferable; AcrossTheEnd is an input |
| `HdRead.UsualTransfers` | common/hd_drv.c:108-158 | transfers inside a track, and of whole tracks from a track start, are transferable |
| `HdRead.Bios.ReadSectors` | arch/x86/lib/disk.c:99-143 | the registers name the sectors of the address; a failed try reports another number |
| `HdRead.Bios.ReadWithin5` | common/hd_drv.c:132-135 | five tries are enough if the BIOS fails at most four times |
| `HdRead.Bios.ReadChunk` | common/hd_drv.c:110-135 | one turn reads the sectors it should, of one track |
| `HdRead.Bios.HdRead` | common/hd_drv.c:85-161 | hd_read ends, returns 512 * count, and leaves the sectors in order at the buffer and nothing else (Placed) |
| `LineInput.GetDelim` | libc/stdio/basic_in.c:11-49 | the buffer holds what Read says of the keys, ended by a NUL if there is room; beyond len nothing changes; the echo is that of the keys |
| `LineInput.BackspaceUndoes` | libc/stdio/basic_in.c:20-41 | a backspace takes back the key before it, and on an empty line does nothing |
| `LineInput.ReadIsFold` | libc/stdio/basic_in.c:11-49 | the line is the stack fold of the keys before any delimiter, and the delimiter; the call returns if and only if it has the delimiter or a full line |
| `LineInput.NeverEmptyIff` | libc/stdio/basic_in.c:11-49 | with room for a character, every returned line has one if and only if the delimiter is not the backspace |
| `LineInput.EchoShowsLine` | libc/stdio/basic_in.c:32-40 | the echo, edited as a line, is the line |
| `EchoScreen.EchoShowsBuffer` | libc/stdio/basic_in.c:32-40 | as long as the line stays in its row of the ideal page, what the echo leaves behind the prompt is what is in the buffer, however it was typed and corrected; what stood elsewhere is unchanged, and no backspace meets column 0 |
| `SplitLine.FieldsOfSpaced` | shell/shell.c:12-59 | words with any number of spaces between and behind them come back as they were |
| `SplitLine.FieldsStep` | shell/shell.c:31-54 | what one turn splits off, and that the rest splits as the whole |
| `SplitLine.FindSpace` | libc/string/str_operations.c:18-31 | the first space of the line, or its end |
| `SplitLine.CutAndSkip` | shell/shell.c:31-44 | the field is ended, the spaces behind it skipped, only one character changes |
| `SplitLine.ShellSplitLine` | shell/shell.c:12-59 | the arguments are the first field and then all non-empty ones, only spaces are overwritten, and argc is their number, eleven at most |
| `SplitLine.ReadCommand` | shell/shell.c:96-112 | the keys typed at the prompt, up to the argument strings of the command; with more than ten fields the place behind the array for them holds the eleventh and what follows it, else it is untouched |
| `SplitLine.TypedCommand` | shell/shell.c:96-112 | a command typed without correction, and the return key, is the command |
| `SplitLine.LongCommand` | shell/shell.c:96-104 | of keys that fill the line, all but the last character are the command |
| `SplitLine.ElevenWords` | shell/shell.c:109-111 | keys that give eleven fields |
| `SplitLine.FieldsOfWords` | shell/shell.c:12-59 | lines of n one-letter words have n fields; with eleven they are 21 characters, more than the array holds |

## Left out

- Assembly, mode switching, interrupt wrappers, and inline assembly: foreign code; interrupts appear as
  steps of the soft timer, and BIOS calls as methods of `HdRead.Bios`.
- GDT, IDT, PIC and PIT setup: fixed constants with nothing that ranges over runs.
- Keyboard driver and scan codes: keys arrive as a sequence of characters.
- e820, e801 and int12 memory detection, `multiboot_fill_header`, `mbr.c`, `dev.c`, `graphics.c`,
  `video.c`, the demonstration kernel: tables, drawing and plumbing.
- `sleep` and `nanosleep` (common/sys/time.c): they wind the timer with a NULL handler, which
  `isr_timer_int` calls.
- `strcmp`, `strncmp`, `strncpy`, `strncpydelim`, `putsndelim`, `vga_putcharcolor`, `tty_hidecursor`,
  `clock_getresolution`, the other `ctype` functions: easy members that no property here needs.
- `list_for_each` and its relatives: macros over caller code.
- The lookup of the command (`shell_execute`) and the devices behind `hd_getinfo`.
- `hd_read` in protected mode: its buffer pointer does not advance between chunks, so only single-chunk
  transfers would come out right.
- Text of panics: a panic is a result, and says why only where that matters.
- Asserted NULL pointers: references cannot be null in the model where the code asserts that they are not.
- 64-bit fields read or written as two 32-bit halves: one read or write of `tv_sec` or `tv_nsec` is one step.
- Characters from 0x80 on: as signed characters they would spill into the colour byte (vga.c:22-23), and
  they index `_ctype[128]` past its end (ctype.c:16).
- NumberText.StrToULL: takes a character from 0x80 on for no digit, where the code reads past its table.
- SoftTimer.FiresAt: for the schedule that gives the waiter its steps after each tick;
  SoftTimer.EveryHistoryFires and AutoRewind.EveryHistoryFiresAgain speak of all histories.
- HeapLayout.TakeTilesIff: the pointer difference of alloc.c:48 over no whole number of headers, undefined
  in C, is read as the quotient rounded down.
- Heap.Allocator.Realloc: what the copy to NULL writes is not modelled; a run stops there.
- NumberText.IntToString: not for the least 64-bit number, whose negation overflows (nb_to_str.c:39).
- NumberText.StrToLL: not for a minus sign before 2^63, whose negation overflows (str_to_nb.c:50).
- Terminal.Tty.PutChar: what a cell outside the video memory overwrites is not modelled.
- HdRead.Bios.HdRead: for the transfers of PlanWorksIff, a buffer that does not wrap its 16-bit offset, and
  reads that succeed within five tries; what the loop does on other transfers is not modelled.
- SplitLine.ReadCommand: what the place behind the array of arguments overwrites is not modelled.
- HlistRuns.Run: `hlist_del`, which poisons, and `hlist_add_fake` are proved one call at a time only.
- RingWorld.Run: `list_del`, which poisons, `list_replace` and the splices that leave a head dangling are
  proved one call at a time only.
- RingWorld.Execute: the same.
