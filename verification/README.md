# Doomkernel: a Dafny model of its heap, scheduler, keyboard, terminal, formatting and initrd

Doomkernel is a small 64-bit kernel in C. This project models the parts of it whose correctness is an
argument over many calls, and proves what those calls promise together.

* **Heap** (`Blocks`, `BlockFacts`, `HeapLaws`, `Vacancy`, `HeapRuns`, `Tiling`, `MemoryMap`, `Allocators`). The class
  `Allocator` keeps 16-byte headers in an array of memory bytes and walks over them as the C code does. A ghost
  list of blocks, each with its status and its payload bytes, is tied to those bytes; every call is proved to do to
  the bytes what the function of the same name does to the list. The laws are then proved about the list: what the
  clients see is a finite map from pointers to bytes, neighbouring free blocks are bounded, `memory_used` is exact.
* **Scheduler** (`Tasks`, `TaskTables`, `Scheduler`, `Creations`, `SchedulerLink`). The class `TaskTable` shifts an array of ten
  slots in place. The module `Scheduler` interleaves ticks, creations, exits, heap calls and the single steps of the
  reaper in any order, over the heap model above, and proves safety of every run and a waiting bound.
* **Keyboard** (`Keyboard`): a 256-slot ring as a queue that drops its oldest character, and the scancode decoder.
* **Terminal** (`Terminal`): an 80x25 buffer scrolled in place as a window on a page that never scrolls.
* **Numbers and formatting** (`Numbers`, `Formatting`): digit buffers against numerals that read back, and loops that
  emit runs of text against a formatter that goes by character. `printf` writes on the terminal model.
* **Initrd** (`Initrd`): the packer's image and the kernel's reader, which undo each other.

`Bytes` holds bytes, little-endian integers and slices. `dafny verify dfyconfig.toml` checks everything.

## How the C code is read

* Memory is an array indexed by address; `MAPPED_LIMIT` (1 GiB) is its length when the heap is set up. Integers are
  unbounded, with `% U64` or `% U32` written where the C type could wrap; the invariants show that the heap's sums
  never do. `ALIGN_UP` is taken by its meaning, the least multiple of 16 at or above its argument.
* `malloc.c` and `calloc.c` contain the same search loop; it is one method here (`PlaceAligned`), which differs for the
  two only in how many bytes of a reused block are cleared.
* Callers of the heap pass pointers that are null, live, or vacant: freed, and their block not taken again since. `free`
  also accepts any other pointer whose status byte reads 0. Client code writes only inside its own payloads. No memory
  map entry wraps around; a kernel that ends so high that heap addresses would wrap leaves no valid heap.
* `realloc(NULL, n)` returns 0 in this code, unlike section 7.22.3.5 of C11, and `snprintf` returns -1 or a truncated
  count on overflow, unlike section 7.21.6.5 of C11. The model follows the code in both.
* Between ticks, heap calls and `task_create` are atomic. If the stack allocation of a new task fails, the task is created
  with a null stack, as in the code. There is one reaper, it never exits, and it takes its steps while it is the running
  task.
* Negating the smallest 64-bit integer is undefined in C; it is modelled as wrapping, which prints a lone minus sign.
* Format arguments are a typed list that serves the conversions of the format.

Three laws that one might expect are false of the code, and their exact conditions are proved instead.

* `realloc` of a pointer right after its `free` should act as `malloc`. It does, on the list and on the bytes, unless
  one of two things holds (`Blocks.Clash`; in terms of the heap before the `free`, `Vacancy.ClashBeforeFree`). Either the
  freed block was not merged backwards and its header still claims enough bytes: then the freed pointer is returned, and
  if the block is split on the way `memory_used` fits no heap any more. Or it was merged into a predecessor of exactly
  the new size, which is the first fit, and it was larger than that: then the remainder header of the inner `malloc` lies
  exactly where the freed header was, and the `memcpy` wipes it. `HeapRuns.ClashRun` gives a run that ends so, and
  `Allocators.Allocator.Realloc` proves the failure for every clash.
* The counter update of the in-place split is right exactly if the block is in use (`HeapLaws.ShrinkCount`).
* A key read that is interrupted by pushes should leave what an uninterrupted read would leave. Between its two
  statements it does exactly if no push met a full ring (`Keyboard.InterruptedRead`); inside the update of the tail,
  exactly if everything fits or the characters make up full turns of the ring (`Keyboard.StaleTail`).

## Model

| member | source | states |
|---|---|---|
| Blocks.AlignUp | libc/include/stdlib.h:16 | the result is the least multiple of 16 at or above the argument |
| Blocks.FirstFit | libc/stdlib/malloc.c:124-168 | every block before the result is used or too small, and the result is a free block that fits, or the end of the list |
| HeapLaws.PlaceLaw | libc/stdlib/malloc.c:143-192 | an allocation fails exactly if no free block fits and the end has no room, and then changes nothing; otherwise it adds one fresh zeroed pointer to the client's map and nothing else |
| HeapLaws.MallocLaw | libc/stdlib/malloc.c:100-193 | `malloc` returns null if and only if the size is 0, above 2^31 - 16, or no free block holds the rounded size and it does not fit behind the last block; null means an unchanged heap; otherwise a new 16-aligned pointer to the rounded size or 16 bytes more, all zero, with every other payload untouched and the used bytes grown by exactly that block |
| HeapLaws.FirstFitLaw | libc/stdlib/malloc.c:124-163 | if block `i` is the lowest free one that fits, `malloc` returns its payload, does not extend the heap and leaves all blocks before it alone |
| HeapLaws.ExtendLawAt | libc/stdlib/malloc.c:164-192 | if every free block is too small and the end has room, the new block is laid behind the last one and all others stay as they are |
| HeapLaws.CallocLaw | libc/stdlib/calloc.c:5-86 | `calloc(n, s)` returns the same pointer and leaves the same headers as `malloc(n * s)`; it returns null if and only if the product is 0, above 2^31 - 16 (so also if it exceeds 64 bits) or finds no room; its requested bytes are zero |
| HeapLaws.FreeLaw | libc/stdlib/free.c:23-60 | `free` removes exactly its pointer from the client's map, takes exactly its block out of the used bytes, keeps the extent of the heap and the number of neighbouring free pairs |
| HeapLaws.ReallocLaw | libc/stdlib/realloc.c:5-65 | a live block that holds the rounded size stays in place, any other moves; null if and only if pointer or size is 0, the size is above 2^31 - 16, or the block is too small and the heap has no room; the first min(old, new) bytes survive, a grown tail is zero, the new size is the rounded one or 16 bytes more, every other payload keeps all its bytes although the inner `free` merges and clears, and a failed call leaves the heap as it was; a vacant pointer that does not clash contributes no bytes |
| HeapLaws.ShrinkCount | libc/stdlib/realloc.c:34-46 | where the in-place branch splits a block of the list, its counter update agrees with the blocks if and only if that block was in use; for a free one the used bytes stay the same |
| HeapLaws.UndoLaw | libc/stdlib/malloc.c:143-163 | without neighbouring free blocks, `free` right after a `malloc` from a free block restores every header |
| HeapLaws.FreeTwice | libc/stdlib/free.c:32-59 | freeing the same pointer twice in a row equals freeing it once |
| HeapLaws.Separation | libc/stdlib/malloc.c:147-163 | two live payloads lie inside the heap, apart from each other by at least a header |
| Vacancy.HeadersApart | libc/stdlib/malloc.c:147-163 | a live payload overlaps no header, of a used or a free block |
| Vacancy.FreedIsVacant | libc/stdlib/free.c:45-59 | a freed pointer points at, or 16-aligned into, an all-zero free block, wherever the merging put it |
| Vacancy.ClashBeforeFree | libc/stdlib/realloc.c:25-63 | `realloc` right after `free` goes wrong if and only if, before the `free`, the block merged with a free successor stood alone with room for the new size, or it went into a predecessor of exactly the new size that is the first fit, being larger than that |
| Vacancy.BlankAfterPlace | libc/stdlib/realloc.c:52-60 | after the inner `malloc` the header read through a vacant pointer has status 0, and claims more bytes than the new size exactly in a clash |
| HeapRuns.StepRefines | libc/stdlib/realloc.c:5-65 | every call of the four, with null, live or vacant pointers, and every client store, is a step of the client's pointer-to-bytes map, including exactly when it returns null and when `realloc` stays in place, and keeps the heap invariant |
| HeapRuns.RunKeeps | libc/stdlib/malloc.c:124-192 | after any run of allowed calls, repeated frees included, block sizes are positive multiples of 16, the blocks end below the heap end, and there are at most as many neighbouring free pairs as in-place shrinks |
| HeapRuns.RunFrames | libc/stdlib/free.c:45-59 | a payload that no call of a run names is still live afterwards with every byte unchanged |
| HeapRuns.AllReleased | libc/stdlib/free.c:45-57 | a run from the empty heap without in-place shrinks that has released everything leaves at most one block, and it is free and covers the whole used range |
| HeapRuns.FreedInRuns | libc/stdlib/free.c:32-34 | in a run a freed pointer may be freed again, which changes nothing, and may be given to `realloc` if and only if the two failing shapes were absent before the `free` |
| HeapRuns.ClashRun | libc/stdlib/realloc.c:52-63 | in every empty heap with room there is a run of five allowed calls after which `realloc` of the last freed pointer clashes |
| HeapRuns.ShrinkMakesPair | libc/stdlib/realloc.c:34-46 | in every empty heap with room there is a run with exactly one in-place shrink that ends with two free blocks in a row, so the bound of `RunKeeps` is reached |
| MemoryMap.Floor | libc/stdlib/malloc.c:17-22 | the heap floor is 0x800000 for kernels that end at or below 0x7FF000, and above that the first multiple of 16 at or above 4 KiB behind the kernel; 0x800000 again if that wraps |
| MemoryMap.BestRegion | libc/stdlib/malloc.c:28-78 | the result is a usable mapped range above the floor, longer than any of an earlier entry and at least as long as any other; length 0 exactly if there is none |
| MemoryMap.HeapRange | libc/stdlib/malloc.c:17-91 | with the floor given by addresses alone, the heap starts at the aligned base of the first longest usable range and ends with it, never beyond 1 GiB; without such a range it takes at most 1 MiB from the floor |
| Allocators.Allocator.MemoryInit | libc/stdlib/malloc.c:16-98 | the heap is empty and has that range; it is a valid one if and only if it starts at or below 2^64 - 2^32, so that its addresses do not wrap |
| Allocators.Allocator.Memset | libc/string/memset.c:3-9 | the range holds the value cut to a byte and no other byte changed |
| Allocators.Allocator.Memcpy | libc/string/memcpy.c:3-11 | the destination holds the old source bytes, also if it overlaps the source from below; if it overlaps from above, the bytes before it repeat; no other byte changed |
| Allocators.Allocator.WalkStep | libc/stdlib/malloc.c:124-131 | the pointer that walks below `last_alloc` always stands on a header, and that header's size is never zero |
| Allocators.Allocator.PlaceAligned | libc/stdlib/malloc.c:122-192 | the pointer-walking search and its stores do to the bytes, to `last_alloc` and to `memory_used` what first-fit placement does to the block list, and no byte outside the heap changes |
| Allocators.Allocator.Malloc | libc/stdlib/malloc.c:100-193 | the bytes after the call hold exactly the block list that `Blocks.Malloc` gives, and the headers still tile the heap |
| Allocators.Allocator.Calloc | libc/stdlib/calloc.c:5-86 | the same for `calloc`, including its overflow guard |
| Allocators.Allocator.FindBefore | libc/stdlib/free.c:5-21 | the walk terminates at the header just before the given one, or reports none for the first block |
| Allocators.Allocator.Free | libc/stdlib/free.c:23-60 | the bytes after the call hold exactly the merged and cleared block list; a freed pointer is vacant and its status byte reads 0, so that freeing it again changes nothing |
| Allocators.Allocator.ShrinkInPlace | libc/stdlib/realloc.c:34-50 | a used block is split as on the list; of a free block the pointer returned is not live, and if it is split the counter fits no heap, otherwise nothing changes |
| Allocators.Allocator.Realloc | libc/stdlib/realloc.c:5-65 | for null, live and vacant pointers: without a clash the bytes hold exactly the block list that `Blocks.Realloc` gives; with one the returned pointer is live in no heap the bytes could hold, and either there is no such heap or nothing changed |
| Allocators.RepresentsUnique | libc/include/stdlib.h:36-39 | the bytes and `last_alloc` determine the block list and `memory_used` |
| Tiling.HeaderLayout | libc/include/stdlib.h:36-39 | the status is the first byte of a header and the size its last eight, lowest first |
| Allocators.Allocator.PerformAll | libc/stdlib/malloc.c:100-193 | any run of allowed calls on the bytes, repeated frees and reallocations of freed pointers included, ends in a tiled heap that holds the same run's block list |
| Tasks.NextUnique | kernel/task/task.c:20-31 | the specification of the next task admits one answer only |
| Tasks.DistForward | kernel/task/task.c:20-31 | round-robin order goes upwards through the indices and from the last to the first |
| Tasks.NewTaskIsFresh | kernel/task/task.c:83-99 | a new task enters its function with the stack pointer 4096 bytes above its stack, the segments and flags of the template, 17 zero registers, and is ready |
| Tasks.CurrentFollows | kernel/task/task.c:125-134 | after a removal the current task is the same one, or the next one or the first if it was removed itself |
| TaskTables.TaskTable.GetNextTask | kernel/task/task.c:20-31 | the nearest task in round-robin order that is not done, or the current one if all are done |
| TaskTables.TaskTable.Schedule | kernel/task/task.c:33-51 | the frame is saved in the slot of the interrupted task, the next one becomes current and its saved frame is returned; the first dispatch saves nothing |
| TaskTables.TaskTable.TaskExit | kernel/task/task.c:61-69 | only the state of the current task changes, to done |
| TaskTables.TaskTable.TaskCreate | kernel/task/task.c:71-101 | a table of ten tasks changes nothing; otherwise one task is appended whose frame enters the given function on top of a heap block of 4096 bytes, with the flags and segments of the template and zero registers |
| TaskTables.TaskTable.ShiftDown | kernel/task/task.c:103-111 | the later slots move down by one in order, with their new index as id |
| TaskTables.TaskTable.FreeStack | kernel/task/task.c:113-117 | only the heap changes, by the `free` of that stack |
| TaskTables.TaskTable.RemoveSlot | kernel/task/task.c:119-137 | the slot is removed, the count lowered and `current_task` adjusted; the heap stays |
| TaskTables.TaskTable.Reap | kernel/task/task.c:113-138 | the stack is freed, the slot removed and `current_task` adjusted |
| TaskTables.SurvivorsDivide | kernel/task/task.c:140-148 | the tasks a reaping pass keeps and the ones it drops divide the table: none kept is done, none dropped is not |
| TaskTables.SurvivorPlace | kernel/task/task.c:140-148 | a task that is not done ends at the place its surviving predecessors leave to it |
| TaskTables.FreeStacksContents | kernel/task/task.c:113-117 | a pass takes exactly the stacks of the dropped tasks from the heap's clients |
| TaskTables.TaskTable.TaskReap | kernel/task/task.c:140-148 | the pass terminates; exactly the tasks that are not done remain, in order, with id equal to index; all stacks of the others are freed, those without one included; a current task that is not done is still current |
| Scheduler.StepSafe | kernel/task/task.c:20-148 | every step of the interleaving keeps table, reaper, stack, frame and freeing invariants together |
| Scheduler.RunSafe | kernel/task/task.c:20-148 | every state of every run from the initial one satisfies them |
| Scheduler.NoLostContext | kernel/task/task.c:33-51 | in every run each resumed frame is the one that task was last preempted or created with, although reaping moves slots and renumbers |
| Creations.FirstResumed | kernel/task/task.c:33-101 | in every run the first frame a task is resumed with enters the function of the one call that created it, on top of the stack allocated there, with the segments and flags given and zero registers |
| Creations.MadeOnce | kernel/task/task.c:71-101 | no two creations of a run give the same task number |
| Scheduler.FreedExactlyOnce | kernel/task/task.c:113-148 | in every run no stack is freed twice, and the stack of every task that has left the table was freed once |
| Scheduler.StackSafety | kernel/task/task.c:83-148 | in every run the running task owns a live stack unless its allocation failed, and the stacks of any two tasks that own theirs do not overlap, also between the `free` and the `cli` |
| Scheduler.NeverPicksDone | kernel/task/task.c:20-31 | a done task is not picked while one that is not done exists, and never the one being reaped |
| Scheduler.TickNearer | kernel/task/task.c:33-51 | a tick makes a waiting task current or strictly lowers its distance |
| Scheduler.RemoveNearer | kernel/task/task.c:119-134 | removing another task never raises the distance of a waiting one |
| Scheduler.BoundedWaiting | kernel/task/task.c:20-51 | a task that is not done becomes current within its distance in ticks plus one per task created meanwhile |
| SchedulerLink.Tick | kernel/task/task.c:33-51 | `schedule` on the array is a tick step, and the frame it returns is the one the log says was resumed |
| SchedulerLink.Create | kernel/task/task.c:71-101 | `task_create` is a creation step, whether the table is full, the stack allocation fails or neither, and the new task enters its function on top of its stack |
| SchedulerLink.Exit | kernel/task/task.c:61-69 | `task_exit` is an exit step |
| SchedulerLink.Scan | kernel/task/task.c:140-148 | the loop head of `task_reap` is a scan step: a done task is reaped next, otherwise the next slot is looked at |
| SchedulerLink.FreeStack | kernel/task/task.c:113-117 | the `free` of `reap` is a step of its own, after which the table matches the state in which ticks may come |
| SchedulerLink.RemoveSlot | kernel/task/task.c:119-137 | the stretch under `cli` is one step from any safe state in which that stack has been freed |
| SchedulerLink.Reap | kernel/task/task.c:113-138 | an uninterrupted `reap` is those two steps one after the other |
| Keyboard.Ring.BufferPush | kernel/drivers/keyboard.c:35-48 | the ring behaves as a queue of at most 255 characters that drops its oldest |
| Keyboard.Ring.HasKey | kernel/drivers/keyboard.c:142-145 | true exactly if a character is pending |
| Keyboard.Ring.GetKey | kernel/drivers/keyboard.c:127-140 | returns and removes the oldest pending character |
| Keyboard.Ring.GetKeyInterrupted | kernel/drivers/keyboard.c:134-139 | with pushes between the load of the character and the tail update the order is still first in, first out exactly if none met a full ring; otherwise one character more is lost |
| Keyboard.Ring.GetKeyStale | kernel/drivers/keyboard.c:137 | with pushes inside the tail update exactly the newest `(t - 1) % 256` of the `t` characters are left, which is what an uninterrupted read leaves if and only if `t` is below or a multiple of 256 |
| Keyboard.StaleTail | kernel/drivers/keyboard.c:134-139 | the same for the queue |
| Keyboard.PushedAllNewest | kernel/drivers/keyboard.c:35-48 | pushes keep the newest 255 of what was pending and what came |
| Keyboard.InterruptedRead | kernel/drivers/keyboard.c:134-139 | the same for the queue: interrupted and uninterrupted reads agree if and only if everything fits |
| Keyboard.PendingIsSuffix | kernel/drivers/keyboard.c:35-48 | after any run of pushes and gets the pending characters are the last ones pushed, at most 255 |
| Keyboard.FifoUnlessFull | kernel/drivers/keyboard.c:127-140 | reads followed by pending equals all pushes if and only if no push met a full ring |
| Keyboard.Ring.Handler | kernel/drivers/keyboard.c:50-108 | the modifiers change and the decoded key, if any, is pushed, for every scancode |
| Keyboard.TablesAgree | kernel/drivers/keyboard.c:19-33 | the two tables hold the two cases of the same letters at the same places and agree on which codes type nothing |
| Keyboard.Rows | kernel/drivers/keyboard.c:19-33 | the four rows of keys type the characters written out, without and with shift |
| Keyboard.OtherKeys | kernel/drivers/keyboard.c:19-33 | escape, backspace, tab, enter, star and space type their codes under all modifiers, and exactly five codes below 58 and all above type nothing |
| Keyboard.LetterCase | kernel/drivers/keyboard.c:88-104 | letters are upper case exactly if one of shift and caps lock is on, toggling both changes nothing, and other keys ignore caps lock |
| Keyboard.ModifierHistory | kernel/drivers/keyboard.c:57-81 | after any scancodes caps lock is the parity of its presses and shift is on exactly if the last shift event was a press |
| Terminal.Screen.constructor | kernel/arch/x86_64/tty.c:23-33 | whatever the VGA memory held, the screen is blank, white on black, and shows the blank page, cursor at the origin |
| Terminal.Screen.ClearScreen | kernel/arch/x86_64/tty.c:35-41 | every cell is blank |
| Terminal.Screen.ClearLastLine | kernel/arch/x86_64/tty.c:43-58 | every row but the last holds what the next one held, and the last is blank |
| Terminal.Screen.PutChar | kernel/arch/x86_64/tty.c:60-85 | the buffer stays the last 25 rows of the page with that character put, cursor included |
| Terminal.Screen.Write | kernel/arch/x86_64/tty.c:87-91 | after any text the buffer is the last 25 rows of the page that text makes |
| Terminal.AboveIsFinal | kernel/arch/x86_64/tty.c:60-85 | no later text changes a row of the page above the cursor |
| Terminal.PlainText | kernel/arch/x86_64/tty.c:70-79 | text without control characters fills the page cell after cell from the cursor on, nothing lost at line ends, and the cells before stay |
| Terminal.PutEffect | kernel/arch/x86_64/tty.c:60-85 | after a newline the cursor is at the start of the next row, after a return at the start of its own, after any other character one further or at the start of the next row |
| Terminal.PutCells | kernel/arch/x86_64/tty.c:60-85 | only a printable character changes a cell, the one at the cursor; rows that scroll in are blank |
| Terminal.LineBreak | kernel/arch/x86_64/tty.c:64-66 | text behind a newline fills cells from the start of the next row on, and the text before it stays where it was |
| Terminal.Overwrite | kernel/arch/x86_64/tty.c:67-68 | text behind a return fills cells from the start of the same row on |
| Numbers.PrintDecimal | libc/stdio/printf.c:67-112 | the two digit buffers are never overrun and the text is the decimal numeral |
| Numbers.PrintHex | libc/stdio/printf.c:26-64 | the nibble loop stays inside its buffer and gives "0x" and the numeral |
| Numbers.DecimalRoundTrip | libc/stdio/printf.c:67-112 | reading the text back gives the number if and only if it is not the minimum, for which it is a lone minus sign; no leading zeros; it fits the buffer |
| Numbers.HexRoundTrip | libc/stdio/printf.c:26-64 | reading the text back gives the number; no leading zeros; it fits the buffer |
| Formatting.CountRun | libc/stdio/printf.c:139-144 | the counted run is maximal: it ends at a percent sign, at the end or at the cap |
| Formatting.RunText | libc/stdio/printf.c:133-162 | emitting a whole run is what the formatter does character by character, also behind a doubled percent sign |
| Formatting.FormatRenders | libc/stdio/printf.c:133-232 | text before the first percent sign is copied, `%%` gives one sign, `%c` its character, `%s` its whole string, `%x` and `%d` a numeral that reads back as the argument, and anything else ends the text verbatim |
| Formatting.WriteToBuffer | libc/stdio/snprintf.c:7-15 | the data follows what was written and nothing behind it changes |
| Formatting.Snprintf | libc/stdio/snprintf.c:17-112 | all writes are below the given size; the result is terminated and a beginning of the formatted text; if the text fits the buffer holds all of it, conversions as above, and its length is returned; if not, it stops before the first piece that does not fit and returns -1, or has filled the buffer exactly and returns its length |
| Formatting.Printf | libc/stdio/printf.c:115-239 | the screen shows the page with exactly the formatted text, conversions as above, and its length is returned if that is at most 2^31 - 1; otherwise it stops at the first piece that would take the counter above that, with a panic, with -1 or with an overflow as that kind of piece has it |
| Initrd.AppendFile | tools/pack_initrd.c:71-79 | copying in pieces appends exactly the file |
| Initrd.WriteTable | tools/pack_initrd.c:56-69 | the running offsets of the table are the true ones modulo 2^32 |
| Initrd.Pack | tools/pack_initrd.c:37-79 | the output is header, table and data of the files |
| Initrd.BaseNameIsLast | tools/pack_initrd.c:60-61 | the base name is the longest end of the path without a slash |
| Initrd.Memcmp | libc/string/memcmp.c:3-22 | zero exactly for equal bytes; otherwise the sign is that of the first difference |
| Initrd.FileSystem.FsInit | kernel/fs/fs.c:10-30 | a wrong magic mounts nothing; a right one sets count, table and data addresses |
| Initrd.FileSystem.FsRead | kernel/fs/fs.c:32-49 | the first entry with that name, or none exactly if no entry has it |
| Initrd.EntryInMemory | tools/pack_initrd.c:56-69 | in a loaded image entry `i` carries the padded name, offset and size of file `i` |
| Initrd.DataInMemory | tools/pack_initrd.c:71-79 | in a loaded image the bytes of file `i` lie at its offset behind the table |
| Initrd.ImageLayout | tools/pack_initrd.c:10-20 | byte by byte: "DFS1", the number of files, for each file 31 name bytes at most and zeros, offset and size, lowest byte first, and behind the last entry the files one after the other |
| Initrd.DistinctNames | kernel/fs/fs.c:39-46 | different base names of at most 31 bytes make every file findable by name |
| Initrd.RoundTrip | kernel/fs/fs.c:10-53 | packing, loading anywhere, mounting and looking up the padded name of a file gives back its size and exactly its bytes, for every file that is the first of its name and ends below 2^32 |

## Left out

- The boot loader and assembly stubs, the GDT and IDT, the PIC, PIT and port I/O: hardware set-up; the timer appears only as the source of ticks.
- `isr.c` and `syscall.c` dispatch to handlers by number, `panic.c` prints and halts, `kernel.c` calls the initialisers in order, and `user_code.c` is a demonstration task.
- Halting loops (`hlt` in `task_exit`, the wait in `keyboard_get_key`, the busy loop of the reaper) are guards of steps or preconditions.
- The padding bytes of a block header are not specified; the code never reads them.
- Allocators.Allocator.Realloc: a pointer that is neither null, live nor vacant is not covered for a servable size; the header read through it can be anything. After a clash with `Broken()` the later calls are not followed.
- Allocators.Allocator.MemoryInit: assumes that no memory map entry wraps around.
- Formatting.Snprintf: a text longer than `INT_MAX` for a buffer of more than 2^31 bytes is not covered, because the signed counter overflows.
- Formatting.Printf: the variadic argument machinery is a typed list, and characters always reach the terminal.
- Initrd.Pack: file access of the packer is left out; files are byte sequences that open and read consistently.
- The scheduler's interleavings treat heap calls and task creation as atomic; a tick inside `malloc` is not modelled.
