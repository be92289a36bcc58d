# TranbyOS: a verified model

TranbyOS is a small 32-bit x86 kernel. This project models the parts of it that compute
something and proves what they compute: the memory primitives and the random generator, the
text console, 64-bit division and the number writers, line and polygon drawing, the context
switch and the interrupt stubs, the task table, the mouse driver and the page tables.

| file | models |
|---|---|
| Numbers.dfy, Bits.dfy | machine integers, powers of two, division and remainder, bitwise operations |
| Random.dfy | `krand`, `srand` |
| Memory.dfy, MemorySearch.dfy | `kmemmove`, `kmemcpy`, `kmemcpyb`, `kmemsetw`, `kmemchr`, `kmemrchr` |
| Console.dfy, Page.dfy | `kputch`, `kscroll`, `cls`, `set_text_color`; the unbounded page they show |
| Division.dfy | `div64_slow`, `modulo` |
| Numerals.dfy, NumberWriters.dfy | numerals and how they read back; `writeUInt`, `writeInt`, `writeUInt64`, `writeInt64`, `writeHex_bytes`, `writeBinary` |
| Lines.dfy, LineShapes.dfy, Polygons.dfy | `plot_pixel`, `line_fast`, `polygon` and the shape of what they draw |
| Machine.dfy, ContextSwitch.dfy, TaskRuns.dfy | the registers and memory that the assembly uses; `switchTask`; whole runs of tasks |
| Interrupts.dfy | `isrN`, `irqN`, `isr_common_stub`, `irq_common_stub` with the processor's own pushes |
| Tasks.dfy | `createTask`, `initTasking`, the successor choice of `k_preempt` |
| Mouse.dfy | `mouse_handler`, `add_packet` |
| Paging.dfy | `init_page_directory`, `get_physaddr`, `idpaging`, the two-level walk |

Conventions. The build is 32-bit, so addresses and `size_t` are 32-bit numbers and unsigned
arithmetic is modulo 2^32; every variable of a C integer type has a type of that range, so that the
absence of overflow is proved where no wrap-around is written. Memory in Memory.dfy and Console.dfy
is an array of bytes indexed by address that ends below 2^32. The assembly of src/asm is modelled one
instruction to a statement on a register record and a memory of words at multiples of four. Code that
changes state is a method or a class, proved against a specification function; the properties are
lemmas about that function.

Where the code does not do what it is for, it is kept as it is and the exact condition is proved:

- `div64_slow` and `modulo` (src/scrn.c:282 and src/scrn.c:309) stop doubling one step early
  exactly when the dividend is `divisor * 2^j` or `divisor * 2^j + 1` with `j >= 1`. The result is
  then wrong, or the loop never ends: `Division.Closed` gives the outcome for every input. The
  header comment of the function promises a slow but correct division. `Division.Div64Repaired` is
  not the source: it shows that `<=` in place of `<` is all that is missing.
- `writeUInt64` and `writeInt64` inherit this: the numeral is right if and only if no successive
  quotient by ten is such a dividend. The first wrong one is 20, written 15.
- The comment at src/asm/start.s:191 promises a zero for the gates without an error code only.
  Vector 17 (src/asm/start.s:200) has an error code and gets the zero as well, so the frame is
  shifted by a word: `Interrupts.AlignmentCheckResumesWrongly`.
- `line_fast` drawn from the other end colours the same pixels if and only if the true line is
  nowhere halfway between two pixels, which `LineShapes.TieFree` decides from the two lengths.
- `get_physaddr` (src/mm.c:304-325) has the checks of the present bits as a to-do: it answers for
  every address, and is right exactly below 4 MiB.

Main results: `Random.OutputPeriod`, `Random.EquallyDistributed`, `Memory.KMemmove`,
`MemorySearch.KMemchr`, `Page.ScreenIsLastRowsOfPage`, `Page.LinesAreRows`,
`Division.OutcomeOfLoops`, `Numerals.SignedExactly`, `NumberWriters.SlowReadsBack`,
`LineShapes.ReversibleExactly`, `Polygons.OutlineIsClosedCurve`, `TaskRuns.ResumedAsIfReturned`,
`Interrupts.Interrupt`, `Tasks.RoundRobin`, `Tasks.TasksStartAtMain`, `Mouse.DecodesAll`,
`Mouse.EmitsFrames`, `Paging.PhysaddrAgrees`.

## Model

| member | source | states |
|---|---|---|
| Random.Generator.Krand | src/main.c:276-280 | a call moves the state word by one step of the 32-bit recurrence and returns bits 16 to 30 of the new state |
| Random.FirstValues | src/main.c:275-280 | the first states and returned values from the initial state 1 (16838, 5758, 10113), and states that determine both constants of the recurrence |
| Random.LowBitsPeriod | src/main.c:275-285 | for every k up to 32 and from any seed, the low k state bits are back after n calls if and only if 2^k divides n |
| Random.FullPeriod | src/main.c:275-285 | from any seed the state returns to the seed exactly after the multiples of 2^32 calls |
| Random.EveryStateOnce | src/main.c:275-285 | from any seed each of the 2^32 states occurs among the first 2^32, and only once |
| Random.OutputPeriod | src/main.c:276-280 | p is a period of the returned sequence if and only if 2^31 divides p, whatever the seed |
| Random.EquallyDistributed | src/main.c:276-280 | each value 0..32767 is returned by exactly 2^16 of the 2^31 calls of a period |
| Memory.KMemmove | src/main.c:184-232 | for every pair of addresses, alignment, length and overlap, memory afterwards is the old memory with the old source bytes at the destination and nothing else changed |
| Memory.MovedBytes | src/main.c:184-232 | what a move is, byte by byte: offset i of the destination is offset i of the old source, every other byte is as before |
| Memory.MoveUp | src/main.c:198-213 | the ascending branch (alignment prefix, word loop, byte tail) never reads a byte it has already overwritten |
| Memory.MoveDown | src/main.c:214-229 | the descending branch likewise, including the early return when the prefix uses up all bytes |
| Memory.KMemcpy | src/main.c:130-137 | copies blocks that do not overlap and changes nothing else |
| Memory.KMemcpyb | src/main.c:237-244 | the exact result of the ascending byte copy for every overlap: a plain move unless src < dest < src + count, and then the first dest - src source bytes repeated |
| Memory.ForwardRepeats | src/main.c:237-244 | the source of each copied byte: in order up to the overlap, and from there on repeating with period dest - src |
| Memory.KMemsetw | src/main.c:255-262 | every 16-bit cell holds the value, low byte first, and nothing outside them changes |
| Memory.BytesOfWord | src/main.c:255-262 | the two bytes of a cell are its low and its high byte |
| MemorySearch.HasZeroExact | src/include/system.h:71-74 | HASZERO is zero if and only if none of the four bytes is zero: no false positive from a borrow |
| MemorySearch.WordTestExact | src/main.c:165-166 | the word loop passes over a word if and only if none of its bytes is the one searched for |
| MemorySearch.ConversionIsLowByte | src/main.c:159 | the byte searched for is the argument modulo 256, whatever its upper 24 bits |
| MemorySearch.KMemchr | src/main.c:156-170 | for every start alignment: the first position within the size that holds the argument modulo 256, or null if and only if there is none |
| MemorySearch.KMemrchr | src/main.c:172-182 | the last position within the size that holds the argument modulo 256, or null if and only if there is none |
| Console.AttributeNibbles | src/scrn.c:32-37 | of the colour word, the low nibbles of both arguments reach the screen, foreground below background |
| Console.Terminal.SetTextColor | src/scrn.c:32-37 | only the colour for what is written later changes |
| Console.ColumnMoves | src/scrn.c:138-175 | no character moves past column 80, a tab ends on the next multiple of eight, anything else moves by at most one column or to the margin |
| Console.Terminal.KScroll | src/scrn.c:48-70 | the overlapping byte copy is a move of whole rows, the row below them is blanked in the current colour, and no byte outside the 2000 cells changes |
| Console.Terminal.Cls | src/scrn.c:97-116 | all 2000 cells are spaces in the current colour, the cursor is at the top left, and no other byte changes |
| Console.Terminal.KPutch | src/scrn.c:132-192 | each branch on the character, the wrap at the margin and the scroll: the whole new console state, with the cursor on the screen and no byte outside the cells changed |
| Page.ViewOfPut | src/scrn.c:132-192 | one character on the screen shows what the same character makes of an unbounded page |
| Page.ScreenIsLastRowsOfPage | src/scrn.c:97-192 | after cls and any sequence of characters, colour changes and cls, the cursor is inside 80x25 and the screen is the last 25 rows of a page drawn with no scrolling |
| Page.ViewExactly | src/scrn.c:48-70 | what the last 25 rows are: the last 2000 cells of the page, with the cursor, the colour and the counter of the page |
| Page.Session | src/scrn.c:32-192 | the same for the methods of the console and the bytes in memory: cls and then any sequence of kputch, set_text_color and cls, with no byte outside the cells changed |
| Page.NewLine | src/scrn.c:162-167 | a new line goes to column 0 of the next row and changes no cell |
| Page.CarriageReturn | src/scrn.c:154-158 | a carriage return goes to column 0 of the same row and changes no cell |
| Page.ReturnOverwrites | src/scrn.c:154-178 | text after a carriage return overwrites the row from its start and nothing else |
| Page.Tab | src/scrn.c:147-151 | a tab goes to the next cell whose number is a multiple of eight, on the next row if need be, and changes no cell |
| Page.Backspace | src/scrn.c:138-144 | a backspace goes one cell back but never to the row above, and erases nothing |
| Page.CorrectedLetter | src/scrn.c:138-183 | letter, backspace, letter: the second takes the cell of the first, unless the first ended its row; then it stays and the second begins the next row |
| Page.OtherControls | src/scrn.c:138-172 | every other character below the space changes nothing |
| Page.LinesAreRows | src/scrn.c:162-183 | lines of text on an empty part of the page come out row by row: each begins in column 0, takes one row more than its letters fill, and blanks follow it |
| Page.FinishedRowsStay | src/scrn.c:48-192 | until the next cls, rows above the cursor never change again and the page never shrinks |
| Page.TextIsLaidOut | src/scrn.c:167-183 | printable text of any length fills consecutive cells, across line ends and scrolls, and changes no others; the counter grows by one a letter and 80 a row |
| Division.FindDivisor | src/scrn.c:305-313 | the doubling loop ends on the divisor times a power of two, and no doubling leaves 64 bits |
| Division.StopsEarly | src/scrn.c:309 | the doubling loop stops one doubling early if and only if the dividend is the divisor times 2^j, or one more, with j >= 1 |
| Division.Div64Slow | src/scrn.c:296-327 | what the two loops make of every dividend and positive divisor, in 64 bits without overflow, equals the closed form; `Endless` if and only if the second loop never ends |
| Division.Modulo | src/scrn.c:277-293 | ends on the same inputs as the division and with the same remainder |
| Division.OutcomeOfLoops | src/scrn.c:305-323 | the loops, taken as mere iteration, have exactly one outcome: the closed form |
| Division.ExactUnlessExceptional | src/scrn.c:296-327 | quotient and remainder are the Euclidean ones if and only if the dividend is not divisor * 2^j or divisor * 2^j + 1 for a j >= 1 |
| Division.EndlessExactly | src/scrn.c:315-323 | the loop never ends if and only if the dividend is exceptional and the divisor is 1, or is 2 or 3 with remainder 1 |
| Division.WrongExactly | src/scrn.c:315-323 | the loop ends with a quotient one too small if and only if the dividend is exceptional and the loop ends, and then half the divisor, rounded up, is added to the remainder |
| Division.TwentyByTen | src/scrn.c:296-327 | 20 divided by 10 gives quotient 1 and remainder 5 |
| NumberWriters.WriteUInt | src/scrn.c:365-393 | writes the decimal numeral, within its buffer |
| NumberWriters.WriteInt | src/scrn.c:207-217 | writes the signed decimal numeral of every i32, the least one included; SignedExactly says which string that is |
| Numerals.DecimalReadsBack | src/scrn.c:365-393 | the decimal numeral reads back as the number, has decimal digits only and no leading zero |
| Numerals.SignedReadsBack | src/scrn.c:207-217 | the signed numeral reads back as the number, for every sign |
| Numerals.DecimalExactly | src/scrn.c:365-393 | the decimal numeral is the only string of decimal digits without a superfluous zero that reads back as the number |
| Numerals.SignedExactly | src/scrn.c:207-217 | the signed numeral is the only one that reads back as the number, with a minus sign only before a number other than zero and then a decimal numeral without a superfluous zero |
| Numerals.SignAndLength | src/scrn.c:207-217 | the minus sign is there if and only if the number is negative, and there are at most ten digits for every i32 |
| Numerals.DecimalLength | src/scrn.c:203-204 | the numeral of a number below 10^k has at most k digits |
| NumberWriters.WriteHexBytes | src/scrn.c:507-511 | writes 0x and then exactly as many digits as nibbles were asked for |
| NumberWriters.WriteBinary | src/scrn.c:573-587 | writes 0b and then all 32 bits, the highest first |
| Numerals.FixedReadsBack | src/scrn.c:507-587 | the n digits read back, in the base, as the number modulo base^n: so hexadecimal of n nibbles modulo 16^n, and binary as the number itself |
| Numerals.FixedExactly | src/scrn.c:507-587 | the n digits are the only numeral of that length and base that reads back as the number modulo base^n |
| NumberWriters.WriteUInt64 | src/scrn.c:329-353 | always terminates within its buffer, and writes the numeral made of the quotients and remainders that div64_slow gives |
| NumberWriters.StoreSlowDigits | src/scrn.c:339-345 | at most 20 digits are stored, for every 64-bit number |
| NumberWriters.WriteInt64 | src/scrn.c:355-363 | a sign and the numeral of the absolute value, the least i64 included |
| NumberWriters.SlowReadsBack | src/scrn.c:329-353 | the 64-bit numeral never has a leading zero, never reads back as more than the number, and reads back as the number if and only if no n / 10^i is an exceptional dividend of ten |
| NumberWriters.SlowStep | src/scrn.c:339-345 | the digits one by one: an exceptional step takes one from the quotient and writes 5 or 6 in place of 0 or 1 |
| NumberWriters.SlowIsDecimal | src/scrn.c:329-353 | the 64-bit numeral is the decimal one if and only if no n / 10^i is an exceptional dividend of ten |
| NumberWriters.TwentyIsWrittenFifteen | src/scrn.c:329-353 | 20 is written 15, and everything below 20 is written correctly |
| Lines.PlotPixel | src/vga.c:261-269 | exactly the byte of the pixel changes, and it is inside the video memory |
| Lines.LineFast | src/vga.c:274-314 | for end points on the screen every index is in range, the pixels of the rounded line get the colour and every other pixel keeps its own |
| Lines.PaintedPixels | src/vga.c:261-314 | what painted means at the bytes of the video memory: every point of the set has the colour at 320 * y + x, and whatever changed belongs to the set |
| Lines.RoundedIsNearest | src/vga.c:284-311 | the number of shorter steps is the one integer within half a unit of the true slope, halves up |
| Lines.AccumulatorSteps | src/vga.c:293-311 | an overflow of the error accumulator happens exactly when the rounded slope goes up by one |
| LineShapes.LineIsWalk | src/vga.c:274-314 | from (x1,y1) to exactly (x2,y2), each pixel is one of the eight neighbours of the one before and no farther from the end in either coordinate |
| LineShapes.LineSize | src/vga.c:274-314 | a line has exactly max(dx, dy) + 1 pixels |
| LineShapes.WithinHalfAPixel | src/vga.c:274-314 | each pixel is within half a pixel of the true line, measured along the shorter axis |
| LineShapes.PixelFromOtherEnd | src/vga.c:274-314 | pixel i from one end and pixel n - i from the other agree if and only if the line is not halfway there; otherwise they are neighbours along the shorter axis |
| LineShapes.SameFromOtherEnd | src/vga.c:274-314 | both drawings colour the same pixels if and only if no step is exactly halfway |
| LineShapes.ReversibleExactly | src/vga.c:274-314 | the same as a check on the two lengths alone: halve both while both are even, and the longer must then be odd (or zero) |
| Polygons.Polygon | src/vga.c:316-326 | reads only inside the vertex list, colours exactly the pixels of its edges and changes no other |
| Polygons.OutlineExactly | src/vga.c:316-326 | a pixel is on the outline if and only if it is on a line from one vertex to the next or on the line from the first to the last |
| Polygons.OutlineIsClosedCurve | src/vga.c:316-326 | the coloured pixels are those of one 8-connected walk that returns to the first vertex, and every vertex is among them |
| ContextSwitch.PushState | src/asm/kernel.s:44-48 | where pusha, pushf and the push of cr3 leave each register |
| ContextSwitch.StoreBlock | src/asm/kernel.s:54-76 | the first argument's block holds the registers as the return of the call would leave them |
| ContextSwitch.LoadBlock | src/asm/kernel.s:78-91 | everything but eax, esp, eip and cr3 comes from the second argument's block |
| ContextSwitch.ReturnToNext | src/asm/kernel.s:93-106 | the rest comes from the block too, and the one word used on the new stack is below its stack pointer |
| ContextSwitch.SwitchTask | src/asm/kernel.s:40-106 | the whole machine: the caller's block holds its registers as after a return, the current registers are those saved in the other block, and only the caller's block and scratch stack words changed |
| TaskRuns.CallIsEntered | src/asm/kernel.s:40-106 | in every run with disjoint blocks and stacks, each call of the routine finds what it needs |
| TaskRuns.ResumedAsIfReturned | src/asm/kernel.s:40-106 | in every run, a resumed task has the registers, flags, cr3, stack pointer and stack that an ordinary return of its call would have given it |
| TaskRuns.StartsAsCreated | src/asm/kernel.s:78-106 | in every run, a task that runs for the first time has exactly the registers put into its block and its stack untouched |
| TaskRuns.StaysResumable | src/asm/kernel.s:40-106 | every step keeps all tasks that do not run ready to be resumed |
| Interrupts.IsrEntry | src/asm/start.s:193-229 | the frame holds the interrupted registers, segments and vector, its address is the argument, and of the flags only the interrupt flag is cleared |
| Interrupts.IrqEntry | src/asm/start.s:247-282 | the same for the hardware interrupts, with a zero error code |
| Interrupts.CommonExit | src/asm/start.s:230-242 | every register comes from the frame as the handler left it, except esp, which the frame field does not determine; the sti of src/asm/start.s:293 makes no difference |
| Interrupts.FrameIsComplete | src/include/system.h:593-603 | processor and stub together build exactly the isr_stack_state layout, whenever they agree on the error code |
| Interrupts.FrameWords | src/include/system.h:593-603 | the offset of every field of the structure |
| Interrupts.HandlerIsInvisible | src/asm/start.s:211-295 | a handler that leaves the frame alone is invisible: registers, flags, stack pointer and segments come back as they were |
| Interrupts.Interrupt | src/asm/start.s:193-295 | the same for the whole way from delivery to iret, for all 48 vectors but 17 and any handler that returns and spares the frame |
| Interrupts.AgreementExactly | src/asm/start.s:200-202 | the condition matches the processor's error codes if and only if the vector is not 17, and leaves out the zero for 8 and 10 to 14 alone |
| Interrupts.AlignmentCheckResumesWrongly | src/asm/start.s:200-242 | for vector 17 the handler sees error code 0, and the interrupted code resumes at the error code with eip as cs and cs as flags |
| Tasks.Table.CreateTask | src/task.c:140-161 | the whole new table: the new slot begins at the handler with the given flags and cr3, zero in the general registers and its own stack, linked behind the last one |
| Tasks.Table.InitTasking | src/task.c:95-133 | tasks 1 to 3 begin at the three main functions, field by field, with the flags and cr3 of the caller and their own stacks; four tasks are linked, the other slots inactive and otherwise untouched |
| Tasks.Table.ChooseNext | src/task.c:72-74 | the running slot moves to the successor that RoundRobin speaks about |
| Tasks.ChainGrows | src/task.c:140-161 | createTask on the next slot keeps one chain in slot order, whose created tasks have stacks at different multiples of 4 KiB |
| Tasks.RoundRobin | src/task.c:72-74 | any processesCount consecutive choices, from any task, run every task exactly once |
| Tasks.TableIsLayout | src/include/system.h:349-357 | the 4 KiB stacks and the save blocks of the table are pairwise disjoint, which is what the runs of tasks need |
| Tasks.ChainIsResumable | src/task.c:140-161 | tasks as created can all be switched to |
| Tasks.TableStartsRun | src/include/system.h:335-357 | a machine whose memory holds the table at the offsets of the structures, and that runs task 0, is at the start of a run |
| Tasks.TasksStartAtMain | src/task.c:95-161 | in every run from the table of initTasking, a task other than 0 runs for the first time at its own main function, with the flags and cr3 of the caller, zero in the general registers and esp at 4096 * i |
| Mouse.Driver.AddPacket | src/kb.c:235-237 | the packet goes to the next of 256 places, cyclically, and no other place changes |
| Mouse.Driver.MouseHandler | src/kb.c:247-327 | one byte: the whole new state of the framing and the position, and the packet stored, if any |
| Mouse.FramingExactly | src/kb.c:253-275 | where each byte goes and when the cycle returns to 0: at a first byte without bit 3, and at the end of a frame |
| Mouse.PacketExactly | src/kb.c:279-318 | a packet is emitted if and only if a frame is completed whose first byte has no overflow bit; the position is then the point of the screen nearest to the old one plus the movement, and otherwise unchanged |
| Mouse.OneMove | src/kb.c:247-327 | the bytes of one movement with deltas in -256..255 yield exactly its packet, in the three-byte and the four-byte modes |
| Mouse.DecodesAll | src/kb.c:247-327 | from cycle 0, the concatenated encodings of any list of movements yield exactly that list, y negated, and end at cycle 0 |
| Mouse.EmitsFrames | src/kb.c:247-327 | on arbitrary bytes from cycle 0 the packets are those of a parser that cuts whole frames: bytes that cannot begin one are skipped, frames with an overflow bit dropped, an unfinished one not reported |
| Mouse.PositionIsFold | src/kb.c:314-315 | on arbitrary bytes the position is the clamped fold of the emitted packets, it stays within 600x400, and a packet takes at least three bytes |
| Paging.PageTables.InitPageDirectory | src/mm.c:253-277 | both tables in full: the first directory entry points to the page table, all others are absent, and page j is entry j |
| Paging.MapsFirstFourMegabytes | src/mm.c:253-288 | the two-level walk maps exactly the addresses below 4 MiB, each to itself, writable and for the supervisor only |
| Paging.PhysaddrAgrees | src/mm.c:304-325 | get_physaddr agrees with the hardware walk if and only if the address is mapped; elsewhere it still answers, modulo 4 MiB |
| Paging.IdPaging | src/mm.c:293-302 | one present entry for each page begun within size bytes, wrapping at 4 GiB, and no other entry changes |
| Paging.PageCountFits | src/mm.c:293-302 | the entries written are as many as there are pages begun: size fits in them and not in one fewer |
| Paging.IdPagingMaps | src/mm.c:290-302 | a table so filled for the 4 MiB around an address maps it to itself |
| Bits.OrIsSum | src/mm.c:272-277 | or-ing flags into a page address adds them, as their bits are clear |
| Bits.AndHighMask | src/mm.c:322 | the mask removes the offset and nothing else |

## Left out

- Division.Div64Slow: a zero divisor; the source only logs it, and a zero divisor with a positive dividend would go through loops that never end.
- Division.Modulo: a zero divisor, as above.
- Polygons.Polygon: an empty vertex list, for which the count minus one wraps around and the source reads outside the list.
- Lines.LineFast: end points off the screen, which the source does not check and writes outside the video memory.
- NumberWriters.WriteHexBytes: more than 16 nibbles, for which the source shifts a 64-bit number by 64 or more.
- Memory.KMemmove: blocks that run past the end of the address space; no object of the program does.
- Memory.KMemcpy: the inline assembly itself; it is taken as an ascending byte copy, and only for blocks that do not overlap, as the source's `restrict` demands.
- ContextSwitch.SwitchTask: interrupts during the routine, and popf of the flags that need privileges; cr3 is a register only, as all tasks share one address map. The machine is passed by value, not updated in place. The room that the routine needs on the stacks is a precondition, which TaskRuns.CallIsEntered discharges.
- TaskRuns.ResumedAsIfReturned: segment and floating-point registers, which the routine does not save.
- Interrupts.Interrupt: stack pointers that are not multiples of four at delivery (as words at other addresses are not modelled), the nulling of data segments by iret to an outer level, vectors 21, 29 and 30 of newer processors, and virtual-8086 mode.
- Interrupts.CommonExit: the handlers `fault_handler` and `irq_handler` themselves; any change of the machine that returns stands for them.
- Page.Session: stands for any caller of the console; the source has no such loop.
- Tasks.Table.CreateTask: slots other than processes[0..9], and more than ten tasks, for which the source writes outside the array.
- Tasks.Table.ChooseNext: the guard at src/task.c:70 reads through a null pointer, so only the choice that follows it is modelled, and curProcessIndex is not.
- Tasks.TableIsLayout: where the linker puts the table and the first stack is an assumption; the source puts the created stacks at the bottom of memory without reserving them. The fields pageDirectory and kernel_stack are never used and only count for the size.
- Paging.PageTables.InitPageDirectory: loading cr3 and enabling paging, and the page fault handler.
- Paging.MapsFirstFourMegabytes: the translation cache, accessed and dirty bits.
- Console.Terminal.KPutch: moving the hardware cursor (port output). The counter `cursor` is written with wrap-around, where C leaves the overflow of an int undefined.
- Mouse.Driver.MouseHandler: the port reads around it; the byte read is the argument. The branch for upward scrolling is never taken, as the byte is unsigned.
- The read side of the keyboard and mouse queues, whose indices are compared without regard to wrap-around.
- kmemcmp, kmemset, kmemsetb, kstrlen, the narrower binary and hexadecimal writers: easy variants of what is here.
- writeReal and kwritef: floating point and C variable arguments, unfinished in the source.
- kmalloc, kfree and map_page: a pointer bump, a table cleared from its start, and a recursive mapping that is never installed.
- removeTask, gdt_set_gate, idt_set_gate, read_rtc: single expressions.
- Device set-up and port conversations: src/io.c, src/hd.c, the video mode tables and fonts.
