# Nocciolo, verified

Nocciolo is a small x86-64 kernel written in Rust. This project models the parts of it that
keep state between calls and proves what they guarantee over whole runs: the heap
allocators, the asynchronous executor with its keyboard wake-up protocol, the mapping of
device memory, the text console and the I/O APIC. `dafny verify dfyconfig.toml` checks
everything.

| files | part of the kernel |
|---|---|
| `Layouts`, `Sequences` | layouts, `align_up`, small helpers |
| `LinkedListHeap`, `LinkedListRuns`, `LinkedListReuse`, `LinkedListAllocator` | first-fit allocator with its free list inside the heap |
| `FixedSizeBlocks`, `FixedSizeRuns`, `FixedSizeExact`, `FixedSizeBlockAllocator` | size-class caches in front of a fallback heap |
| `BumpAllocator` | bump allocator |
| `AsyncRuntime`, `AsyncRuns`, `AsyncTasks`, `Executor` | executor, keyboard stream and interrupt handler |
| `SimpleExecutor` | round-robin executor |
| `AcpiMapping`, `AcpiRuns` | mapping and unmapping of physical regions, virtual page allocator |
| `FrameAllocator` | boot-info frame allocator, `init_heap` |
| `PageWalk`, `PageTables` | four-level address translation, and why a flat page map stands for the tables |
| `ColorCodes`, `Screens`, `TextWriter`, `ScreenRuns`, `ScreenText` | escape sequences, framebuffer text writer, coloured log lines |
| `IoApic` | redirection table |

Each imperative part comes twice: functions on values say what an operation does and carry
the theorems about runs, and a class updates its fields, its array or a word-addressed
memory in place and is proved to do exactly what those functions say.

Integers are unbounded in the model; where the source's width matters it is written out.
Arithmetic follows the development profile, in which an overflow panics. A panic is an
outcome (`Panicked`, `None`, `Dead`, `Stopped`) where the source can reach it, and a proof
obligation where it cannot.

Main results:

- **Heap.** Every byte of the heap always belongs to exactly one free region, live block or
  leaked gap, over every sequence of allocations and releases; the list in memory is exactly
  the abstract free list; client memory is never written. Which requests are served, and at
  which address, is exact, and what is released can be had again. The two layers compose: the
  fallback heap of the size-class allocator is the verified first-fit heap.
- **Wake-ups.** With interrupts between any two steps, no wake-up is lost, a halted processor
  has nothing to do, and without further interrupts the kernel halts having delivered every
  accepted scancode. Queued tasks get their turn in order, and one that is ready is gone for
  good.
- **Memory.** From any page tables, live device mappings translate byte for byte in every
  reachable state, and unmapping restores the page tables. Creating the missing tables on a
  path and writing its last entry is an update of a flat page map at one page.
- **Console.** What the logger prints is what the console draws, glyph by glyph and in its
  colours; text fills a grid of cells, each glyph in its own; every pixel is in the
  framebuffer; backspaces undo printing.

Promises that turned out not to hold as one might state them, each with the exact condition:

- `align_up` overflows for a region in the last bytes of the address space, so the
  linked-list allocator can panic there (`HighHeapOverflows`, `FailureExact`).
- A full task queue is reachable with the keyboard task alone: a hundred interrupts that each
  fall between registration and second pop of a single poll fill it (`FloodStops`,
  `StopNeedsFlood`, `StopExact`). The comment that `add_scancode` must not block does not
  exclude this panic.
- The virtual page cursor is never compared with what is already mapped. It stays below the
  heap only because `map_to` refuses mapped pages; for the same reason the first page above it
  that the boot loader mapped, wherever the kernel image or the window onto physical memory
  lies, stops it for good (`ServedExact`, `ServedBelowHeap`).
- A backspace at the start of a line panics (`BackspaceAtLineStart`, `BackspacePanicExact`),
  and one over cells that were not black does not restore them (`BackspaceUndoesExact`).
- Frames listed for a region lie in it exactly if the region is page-aligned
  (`FramesInsideExact`).
- Text is shown as it is exactly if it holds no escape character (`ShownVerbatimExact`).
- A redirection entry survives a write and a read exactly if its destination matches its mode
  (`RoundTripExact`).

## Model

| member | source | states |
|---|---|---|
| `Layouts.AlignUpLeast` | kernel/src/allocator.rs:82-89 | the result is the least aligned address not below the argument |
| `Layouts.AlignUpOverflow` | kernel/src/allocator.rs:82-89 | for power-of-two alignments the result leaves the address space exactly for addresses above 2^64 minus the alignment |
| `LinkedListHeap.SizeAlign` | kernel/src/allocator/linked_list.rs:109-116 | the adjusted size holds the request and a list node, both adjusted values are multiples of the node's alignment, and the adjustment panics exactly for layouts too large to pad |
| `LinkedListHeap.SuitableExact` | kernel/src/allocator/linked_list.rs:85-103 | a region is suitable exactly when the least aligned address in it leaves room for the block and leaves over nothing or at least a list node |
| `LinkedListHeap.FirstFitExact` | kernel/src/allocator/linked_list.rs:60-79 | the scan fails iff no region is suitable, and otherwise finds the first suitable one; an overflow happens iff one is met before that |
| `LinkedListHeap.CarveOwners` | kernel/src/allocator/linked_list.rs:124-139 | carving a block changes the owner count of no byte and keeps free plus live plus leaked bytes |
| `LinkedListHeap.CarveInv` | kernel/src/allocator/linked_list.rs:124-139 | an allocation keeps the heap tiled by aligned regions that hold a list node, so the assertions in `add_free_region` and the excess subtraction never fail |
| `LinkedListHeap.DeallocInv` | kernel/src/allocator/linked_list.rs:141-146 | a release keeps the heap tiled |
| `LinkedListHeap.InitInv` | kernel/src/allocator/linked_list.rs:38-40 | a fresh 8-aligned heap of at least a node is tiled |
| `LinkedListRuns.Separation` | kernel/src/allocator/linked_list.rs:43-146 | free regions, live blocks and leaks of a tiled heap are pairwise disjoint, lie inside it, and add up to its size |
| `LinkedListRuns.RunSafety` | kernel/src/allocator/linked_list.rs:38-146 | over every run of allocations and matching releases the parts stay disjoint and inside the heap, and bytes are conserved |
| `LinkedListRuns.AllocSound` | kernel/src/allocator/linked_list.rs:124-139 | a returned pointer is non-null, aligned, inside the heap and disjoint from every live block, all of which stay live |
| `LinkedListRuns.FailureExact` | kernel/src/allocator/linked_list.rs:124-139 | exactly when an allocation panics, and exactly when it returns null |
| `LinkedListRuns.LowHeapPanicsOnlyOnSize` | kernel/src/allocator/linked_list.rs:85-116 | in the lower half of the address space the only panic left is a layout too large to pad |
| `LinkedListRuns.HighHeapOverflows` | kernel/src/allocator/linked_list.rs:85-103 | a heap near the end of the address space on which an allocation panics |
| `LinkedListRuns.LeakExact` | kernel/src/allocator/linked_list.rs:85-146 | an allocation leaks exactly the gap between region start and block start, a release nothing |
| `LinkedListRuns.NoLeak` | kernel/src/allocator/linked_list.rs:85-146 | if no requested alignment exceeds 8, nothing is ever leaked |
| `LinkedListRuns.FragmentationIsPermanent` | kernel/src/allocator/linked_list.rs:141-146 | regions are never merged: once all parts are below a size, no later request of that size succeeds, whatever is released |
| `LinkedListReuse.SizeAlignExact` | kernel/src/allocator/linked_list.rs:109-116 | the padded size is the least multiple of the alignment that holds the request, unless a list node is larger |
| `LinkedListReuse.AllocAtExact` | kernel/src/allocator/linked_list.rs:60-79 | an allocation answers with an address iff the first suitable region in list order puts it there |
| `LinkedListReuse.AllocRest` | kernel/src/allocator/linked_list.rs:127-136 | what is left of the region becomes the first in the list, and the others keep their order |
| `LinkedListReuse.SplitServesNext` | kernel/src/allocator/linked_list.rs:124-139 | so the next request that fits in what a split left over is served from there |
| `LinkedListReuse.Reuse` | kernel/src/allocator/linked_list.rs:124-146 | the same request after a release answers with the same address and brings free list and leaks back |
| `LinkedListReuse.ReuseAll` | kernel/src/allocator/linked_list.rs:124-146 | the same for any number of releases, last released first |
| `LinkedListAllocator.ChainFrame` | kernel/src/allocator/linked_list.rs:43-54 | the list in memory depends on the words of its own nodes only |
| `LinkedListAllocator.BypassUnlinks` | kernel/src/allocator/linked_list.rs:60-79 | the writes around a node unlink exactly that node and keep the order of the others |
| `LinkedListAllocator.LiveStoreKeepsChain` | kernel/src/allocator/linked_list.rs:43-79 | a word written by a client lies wholly in its block, and cannot damage the free list |
| `LinkedListAllocator.LinkedListAllocator.constructor` | kernel/src/allocator/linked_list.rs:27-40 | the whole heap is one listed region |
| `LinkedListAllocator.LinkedListAllocator.AddFreeRegion` | kernel/src/allocator/linked_list.rs:43-54 | the region becomes the head of the list and no other word changes |
| `LinkedListAllocator.LinkedListAllocator.FindRegion` | kernel/src/allocator/linked_list.rs:60-79 | the walk returns and unlinks exactly the first suitable node, or leaves the list as it was |
| `LinkedListAllocator.LinkedListAllocator.Alloc` | kernel/src/allocator/linked_list.rs:124-139 | the list in memory and the result are those of the specification; no word of a live block changes |
| `LinkedListAllocator.LinkedListAllocator.Split` | kernel/src/allocator/linked_list.rs:127-136 | the rest of the region behind the block is listed again |
| `LinkedListAllocator.LinkedListAllocator.Dealloc` | kernel/src/allocator/linked_list.rs:141-146 | the block is listed again with its adjusted size; no word of another live block changes |
| `FixedSizeBlocks.ListIndexExact` | kernel/src/allocator/fixed_size_block.rs:61-64 | the class is the smallest that holds size and alignment; there is none iff 2048 is too small |
| `FixedSizeBlocks.ClassLayoutValid` | kernel/src/allocator/fixed_size_block.rs:77-83 | the layout built for a class is valid, and the fallback serves it with a block of the class size or a list node |
| `FixedSizeBlocks.GrantsCanBeFreed` | kernel/src/allocator/fixed_size_block.rs:91-110 | every granted block can be released: it has its class, and large ones are live in the fallback |
| `FixedSizeBlocks.AllocInv` | kernel/src/allocator/fixed_size_block.rs:67-89 | an allocation keeps outstanding fallback blocks equal to cached blocks plus backings of grants |
| `FixedSizeBlocks.DeallocInv` | kernel/src/allocator/fixed_size_block.rs:91-110 | so does a release |
| `FixedSizeRuns.InvLayered` | kernel/src/allocator/fixed_size_block.rs:61-111 | cached blocks have their class size and alignment, and cached, granted and fallback-free memory are pairwise disjoint and conserved |
| `FixedSizeRuns.TwoLayerSafety` | kernel/src/allocator/fixed_size_block.rs:36-111 | all this holds over every run of both layers together |
| `FixedSizeRuns.GrantSound` | kernel/src/allocator/fixed_size_block.rs:67-89 | a grant is non-null, aligned as asked and fits in its backing |
| `FixedSizeRuns.GrantsApart` | kernel/src/allocator/fixed_size_block.rs:67-89 | no two grants overlap |
| `FixedSizeRuns.GrantInside` | kernel/src/allocator/fixed_size_block.rs:67-89 | no grant reaches outside the heap |
| `FixedSizeRuns.Lifo` | kernel/src/allocator/fixed_size_block.rs:67-110 | releasing blocks of a class and allocating as many again returns them last-in first-out and leaves caches and fallback as they were |
| `FixedSizeRuns.ClassMemoryIsForever` | kernel/src/allocator/fixed_size_block.rs:91-110 | memory taken for a class never goes back to the fallback |
| `FixedSizeExact.CachedExact` | kernel/src/allocator/fixed_size_block.rs:70-75 | with a cached block of the class, that cached last is the answer and the fallback is not asked |
| `FixedSizeExact.ClassExact` | kernel/src/allocator/fixed_size_block.rs:76-84 | without one, null iff no free region of the fallback suits the class's size and alignment, a panic iff one that overflows comes first, and otherwise the first-fit address, which is granted |
| `FixedSizeExact.LargeExact` | kernel/src/allocator/fixed_size_block.rs:87 | the same for large layouts, adjusted |
| `FixedSizeExact.FirstGrant` | kernel/src/allocator/fixed_size_block.rs:67-89 | the first request of a class on a fresh heap is served from its start |
| `FixedSizeExact.ReleasedIsGone` | kernel/src/allocator/fixed_size_block.rs:91-110 | a release removes the grant, exactly once |
| `FixedSizeExact.LargeReuse` | kernel/src/allocator/fixed_size_block.rs:105-108 | a released large block is the fallback's first region, and the same request gets it again |
| `FixedSizeBlockAllocator.PopFrame` | kernel/src/allocator/fixed_size_block.rs:70-75 | popping touches neither the other caches nor the fallback's list nor a client |
| `FixedSizeBlockAllocator.PushFrame` | kernel/src/allocator/fixed_size_block.rs:94-104 | nor does pushing |
| `FixedSizeBlockAllocator.CachedNotGranted` | kernel/src/allocator/fixed_size_block.rs:91-110 | no cached node lies in a client's block |
| `FixedSizeBlockAllocator.FixedSizeBlockAllocator.constructor` | kernel/src/allocator/fixed_size_block.rs:23-38 | empty caches over a fresh fallback heap |
| `FixedSizeBlockAllocator.FixedSizeBlockAllocator.Alloc` | kernel/src/allocator/fixed_size_block.rs:67-89 | result and state are those of the specification; no word of a grant changes |
| `FixedSizeBlockAllocator.FixedSizeBlockAllocator.FallbackAlloc` | kernel/src/allocator/fixed_size_block.rs:41-49 | the fallback serves the request and nothing else changes |
| `FixedSizeBlockAllocator.FixedSizeBlockAllocator.Dealloc` | kernel/src/allocator/fixed_size_block.rs:91-110 | the state is that of the specification; no word of another grant changes |
| `FixedSizeBlockAllocator.FixedSizeBlockAllocator.Store` | kernel/src/allocator/fixed_size_block.rs:67-110 | a client writing a word of its grant disturbs neither layer |
| `BumpAllocator.RunSafety` | kernel/src/allocator/bump.rs:24-61 | over every run the counter counts the live blocks, which are disjoint, aligned and inside the used part, and the next block overlaps none, whatever resets happened |
| `BumpAllocator.TakeExact` | kernel/src/allocator/bump.rs:36-52 | an allocation answers with an address iff it is the least aligned one behind the cursor and the block ends within the heap, and null iff it does not |
| `BumpAllocator.AllFreedIsNew` | kernel/src/allocator/bump.rs:54-61 | in every run, once everything is freed the allocator is as good as new |
| `BumpAllocator.PanicExact` | kernel/src/allocator/bump.rs:36-52 | exactly when an allocation panics |
| `BumpAllocator.NoReuseWhileLive` | kernel/src/allocator/bump.rs:54-61 | while something stays live the cursor never moves down |
| `BumpAllocator.BumpAllocator.Initialize` | kernel/src/allocator/bump.rs:24-28 | the heap is empty |
| `BumpAllocator.BumpAllocator.Alloc` | kernel/src/allocator/bump.rs:36-52 | result and state are those of the specification |
| `BumpAllocator.BumpAllocator.Dealloc` | kernel/src/allocator/bump.rs:54-61 | the counter goes down, and at zero the whole heap is free again |
| `AsyncRuntime.StepInv` | kernel/src/task/executor.rs:52-104 | every event keeps the invariants of task map, queues, waker and interrupt flag |
| `AsyncRuntime.AddScancodeInv` | kernel/src/task/keyboard.rs:55-65 | the interrupt handler keeps the wake-up invariant at any point it may fire |
| `AsyncRuntime.MainKeyInv` | kernel/src/task/keyboard.rs:31-49 | each operation of the poll keeps it |
| `AsyncRuntime.SleepStep` | kernel/src/task/executor.rs:95-104 | interrupts are off exactly during the check, and a halted processor has an empty queue |
| `AsyncRuns.NoLostWakeup` | kernel/src/task/keyboard.rs:31-65 | in every run, scancodes waiting outside a poll mean a queued id; a halt means empty queues, a registered waker and no task woken or unpolled |
| `AsyncRuns.ExecutorSafety` | kernel/src/task/executor.rs:52-86 | no task is polled after it completed, wakers are cached for live tasks only, and unpolled or woken live tasks are queued |
| `AsyncRuns.CompletedIdSkipped` | kernel/src/task/executor.rs:68-72 | in every run, popping the id of a task that has completed changes nothing: no poll, no waker |
| `AsyncTasks.ReadyIsFinal` | kernel/src/task/executor.rs:77-82 | from every reachable state, a task that returns ready leaves the task map and the waker cache for good and is never polled again |
| `AsyncTasks.PendingStays` | kernel/src/task/executor.rs:77-84 | a pending result changes nothing, a ready one only that task |
| `AsyncTasks.CacheExact` | kernel/src/task/executor.rs:73-76 | in every run, wakers are cached for exactly the live tasks that have been polled |
| `AsyncTasks.SpawnQueues` | kernel/src/task/executor.rs:52-58 | a spawned task is live and last in the queue, or the spawn panics iff a hundred are queued |
| `AsyncTasks.WakeQueues` | kernel/src/task/executor.rs:22-24 | a woken task is last in the queue, or the wake panics iff a hundred are queued |
| `AsyncTasks.KeyQueues` | kernel/src/task/keyboard.rs:55-65 | an accepted scancode queues the keyboard task iff its waker is registered, and uses the waker up |
| `AsyncTasks.TakenBack` | kernel/src/task/keyboard.rs:41-46 | a scancode found after registering is delivered and the waker taken back |
| `AsyncTasks.QueueOrder` | kernel/src/task/executor.rs:68 | over every run the task queue is first in, first out |
| `AsyncTasks.TurnComes` | kernel/src/task/executor.rs:68-72 | every queued id is popped after exactly those in front of it |
| `AsyncTasks.PoppedIsPolled` | kernel/src/task/executor.rs:68-77 | a popped id begins a poll iff its task is live |
| `AsyncRuns.ScancodeFifo` | kernel/src/task/keyboard.rs:20-65 | delivered followed by queued scancodes stay the accepted ones, an ordered subsequence of the received ones |
| `AsyncRuns.DropExact` | kernel/src/task/keyboard.rs:55-65 | a scancode is dropped exactly when a hundred are queued |
| `AsyncRuns.WakeAccounting` | kernel/src/task/executor.rs:22-24 | pushes of the keyboard task's id never exceed one spawn plus the registrations |
| `AsyncRuns.KeyboardRuns` | kernel/src/task/keyboard.rs:20-65 | order and accounting, for every run from the start |
| `AsyncRuns.StopNeedsFlood` | kernel/src/task/executor.rs:22-24 | with the keyboard task alone the queue overflows only after a hundred more registrations than pops |
| `AsyncRuns.FloodStops` | kernel/src/task/executor.rs:22-24 | and then it does: a run that panics |
| `AsyncRuns.StopExact` | kernel/src/task/executor.rs:22-24 | the events that stop the machine are exactly pushes onto a full task queue |
| `AsyncRuns.MainProgress` | kernel/src/task/executor.rs:88-93 | every main-line step of the booted kernel comes closer to a halt |
| `AsyncRuns.Drains` | kernel/src/task/executor.rs:88-104 | without further interrupts it halts within a given number of steps with all accepted scancodes delivered |
| `AsyncRuns.BootedRuns` | kernel/src/main.rs:95-97 | both, for every run of the kernel as it boots |
| `Executor.QueueInitialized` | kernel/src/task/keyboard.rs:31-34 | the `expect` on the scancode queue never fails |
| `Executor.IdIsFresh` | kernel/src/task/mod.rs:13-18 | a new id is never in the task map, so `spawn` never finds an old entry |
| `Executor.PendingIsSafe` | kernel/src/task/keyboard.rs:41-48 | after a pending poll the task is queued or its waker registered, and queued if scancodes wait |
| `Executor.Executor.constructor` | kernel/src/task/executor.rs:44-50 | the initial state |
| `Executor.Executor.WakeTask` | kernel/src/task/executor.rs:22-24 | the id is pushed, or the call panics iff a hundred are queued |
| `Executor.Executor.Spawn` | kernel/src/task/executor.rs:52-58 | the move of the machine |
| `Executor.Executor.AddScancode` | kernel/src/task/keyboard.rs:55-65 | the move of the machine |
| `Executor.Executor.PopScancode` | kernel/src/task/keyboard.rs:36-41 | the oldest scancode, or none iff the queue is empty |
| `Executor.Executor.PollNext` | kernel/src/task/keyboard.rs:31-49 | with arrivals before every operation: a result is the oldest undelivered scancode, and a pending poll leaves nothing unwoken |
| `Executor.Executor.PollKeyboard` | kernel/src/task/keyboard.rs:78-97 | one poll of the keyboard task is a run of the machine |
| `Executor.Executor.PollOther` | kernel/src/task/executor.rs:77-84 | so is a poll of any other task, with any wake-ups, arriving scancodes and any result |
| `Executor.Executor.RunTask` | kernel/src/task/executor.rs:68-85 | so is a turn of the loop, with arrivals between pop and lookup, stale ids included |
| `Executor.Executor.RunReadyTasks` | kernel/src/task/executor.rs:60-86 | the loop is a run of the machine, with arrivals before every pop, and returns exactly when the queue is found empty |
| `Executor.Executor.SleepIfIdle` | kernel/src/task/executor.rs:95-104 | with arrivals before `cli`, it halts only with both queues empty and the waker registered, and the next interrupt ends the halt |
| `Executor.Executor.Run` | kernel/src/task/executor.rs:88-93 | the alternation of both is a run of the machine |
| `SimpleExecutor.RoundRobin` | kernel/src/task/simple_executor.rs:36-45 | the polls number the sum of what the tasks need, each task gets exactly its share in round-robin order, and tasks finish in order of need and then of spawning |
| `SimpleExecutor.RunEndsExact` | kernel/src/task/simple_executor.rs:36-45 | the loop ends exactly if every task becomes ready at some poll |
| `SimpleExecutor.SimpleExecutor.Spawn` | kernel/src/task/simple_executor.rs:16-18 | the task goes to the back |
| `SimpleExecutor.SimpleExecutor.Run` | kernel/src/task/simple_executor.rs:36-45 | the loop ends with an empty queue after exactly the specified polls and completions |
| `AcpiMapping.RoundTrip` | kernel/src/device/acpi/handler.rs:18-45 | byte k of the returned region translates to physical byte k, for every address and size |
| `AcpiMapping.EmptyRequest` | kernel/src/allocator/page.rs:20-30 | only empty requests at a page boundary touch no page |
| `AcpiMapping.PagesTouched` | kernel/src/device/acpi/handler.rs:23-27 | the pages of a request run from that of its first byte to that of its last and no further |
| `AcpiMapping.GoodRequestExact` | kernel/src/device/acpi/handler.rs:23-24 | well formed are exactly the requests that end below 2^52 and touch a page |
| `AcpiMapping.Mapper.MapTo` | kernel/src/device/acpi/handler.rs:82-90 | a page is mapped iff it was not and a table is available |
| `AcpiMapping.Mapper.Unmap` | kernel/src/device/acpi/handler.rs:58-66 | exactly that page goes, or the call fails iff it was not mapped |
| `AcpiMapping.Handler.AllocateN` | kernel/src/allocator/page.rs:20-30 | the next pages are handed out once, and the cursor moves behind them |
| `AcpiMapping.Handler.DoMapRegion` | kernel/src/device/acpi/handler.rs:75-95 | the pages are mapped linearly to the frames, or the call panics iff one cannot be |
| `AcpiMapping.Handler.MapPhysicalRegion` | kernel/src/device/acpi/handler.rs:18-45 | page tables, cursor and returned mapping are those of the specification, panics included |
| `AcpiMapping.Handler.UnmapPhysicalRegion` | kernel/src/device/acpi/handler.rs:47-72 | from the unaligned start, exactly the pages of the mapping go |
| `AcpiRuns.ServedExact` | kernel/src/device/acpi/handler.rs:18-45 | in a reachable state a request is served iff it is well formed, tables are found, and its pages are lower-half pages not mapped at boot |
| `AcpiRuns.ServedBelowHeap` | kernel/src/device/acpi/handler.rs:18-45 | with the heap mapped, iff besides its pages end below every page mapped at boot above the cursor |
| `AcpiRuns.LiveTranslates` | kernel/src/device/acpi/handler.rs:18-45 | every byte of every live mapping reaches its physical byte |
| `AcpiRuns.LiveIsDeviceMemory` | kernel/src/device/acpi/handler.rs:25 | every page of a live mapping is writable and not cached |
| `AcpiRuns.RunSafety` | kernel/src/device/acpi/handler.rs:18-95 | over every run from any page tables, no page range is handed out twice, the cursor passes no page mapped at boot and so stays below a mapped heap, boot mappings stay intact, live mappings translate, and with none live the page tables are those of the boot |
| `AcpiRuns.UnmapNeverFails` | kernel/src/device/acpi/handler.rs:47-72 | an unmap of a live mapping never panics |
| `AcpiRuns.UnmapRestores` | kernel/src/device/acpi/handler.rs:47-72 | unmapping what was just mapped restores the page tables exactly |
| `FrameAllocator.FramesInsideExact` | kernel/src/memory.rs:144-156 | frames of a region lie in it iff the region is page-aligned |
| `FrameAllocator.FramesExact` | kernel/src/memory.rs:144-156 | the list holds exactly the aligned frames of usable regions |
| `FrameAllocator.FramesDistinct` | kernel/src/memory.rs:144-156 | no frame is listed twice |
| `FrameAllocator.FramesTotal` | kernel/src/memory.rs:144-156 | there are as many frames as usable pages |
| `FrameAllocator.FramesPlaced` | kernel/src/memory.rs:144-156 | the position of every frame: regions in the order of the memory map, each from its start upwards |
| `FrameAllocator.CallsExact` | kernel/src/memory.rs:171-175 | calls return frames exactly while usable pages are left, never the same one twice, and then none |
| `FrameAllocator.BootInfoFrameAllocator.AllocateFrame` | kernel/src/memory.rs:171-175 | the frame numbered by the counter, which advances |
| `FrameAllocator.InitHeap` | kernel/src/allocator.rs:35-62 | it succeeds iff no heap page is mapped and there are frames for the pages and the tables on the way, and then maps exactly the heap |
| `FrameAllocator.HeapBacked` | kernel/src/allocator.rs:35-62 | every heap page has a usable frame of its own, different from every other frame drawn, page-table frames included |
| `FrameAllocator.HeapMapAt` | kernel/src/allocator.rs:47-55 | pages outside the heap are as they were, and each heap page has the frame of its own call |
| `PageWalk.TranslateAddr` | kernel/src/memory.rs:62-94 | the loop computes the specified walk |
| `PageWalk.EntryFields` | kernel/src/memory.rs:82-90 | the frame of an entry is in bits 12 to 51, present in bit 0, huge in bit 7, whatever the bits above hold |
| `PageWalk.WalkSucceeds` | kernel/src/memory.rs:80-91 | the walk succeeds iff every entry on the path is present and none is huge |
| `PageWalk.WalkFails` | kernel/src/memory.rs:80-91 | otherwise the first bad entry decides between unmapped and panic |
| `PageWalk.ComposeIndices` | kernel/src/memory.rs:70-73 | four 9-bit indices and a 12-bit offset determine a canonical address |
| `PageWalk.IndicesCompose` | kernel/src/memory.rs:70-73 | and every canonical address is determined by its own |
| `PageWalk.SamePage` | kernel/src/memory.rs:93 | addresses of one page translate alike, with the same difference |
| `PageWalk.LeafWrite` | kernel/src/memory.rs:62-94 | writing a lowest-level entry in a tree of tables changes the translation of that page alone |
| `PageWalk.TableInstall` | kernel/src/memory.rs:62-94 | hanging in a fresh table changes no translation |
| `PageTables.MapToRefines` | kernel/src/device/acpi/handler.rs:82-90 | creating missing tables and writing the last entry is `pages[page := entry]` for every canonical address |
| `PageTables.ThreeTablesSuffice` | kernel/src/device/acpi/handler.rs:82-90 | three spare frames are enough for any unmapped page |
| `PageTables.FailedMapToRefines` | kernel/src/device/acpi/handler.rs:82-90 | a mapping that runs out of frames has changed no translation |
| `PageTables.UnmapRefines` | kernel/src/device/acpi/handler.rs:58-66 | clearing the last entry is `pages - {page}` |
| `PageTables.PathExact` | kernel/src/memory.rs:70-73 | canonical addresses share a path iff they share a page |
| `ColorCodes.PrintParse` | kernel/src/logging.rs:52-101 | feeding what any nesting of coloured spans prints shows the text in the right colours and ends in normal text |
| `ColorCodes.PaintedIsPlain` | kernel/src/logging.rs:94-101 | the characters shown are exactly the plain text |
| `ColorCodes.ShownVerbatimExact` | kernel/src/vga_text_buffer.rs:124-196 | text is shown as it is iff it holds no escape character |
| `ColorCodes.ColorNeverPending` | kernel/src/vga_text_buffer.rs:239-248 | no parsed colour is left over between characters |
| `ColorCodes.Resynchronises` | kernel/src/vga_text_buffer.rs:124-196 | whatever comes in, the parser is back to normal text within four characters |
| `ColorCodes.LoneEscape` | kernel/src/vga_text_buffer.rs:124-196 | an escape character without a bracket is dropped, and what follows is shown |
| `ColorCodes.SequenceExact` | kernel/src/vga_text_buffer.rs:124-196 | a two-character code that does not end in m shows its last character, and one that does changes the colour iff it is 3 and a digit below 8 |
| `ColorCodes.ResetExact` | kernel/src/vga_text_buffer.rs:124-196 | the same for the reset code |
| `ColorCodes.LogLineShows` | kernel/src/logging.rs:39-45 | what a record shows, character by character and colour by colour; it leaves the console white, and a trace shows nothing |
| `Screens.PixelOfByte` | kernel/src/vga_text_buffer.rs:284-292 | the bytes written for a pixel are exactly those at its row and column |
| `Screens.PixelInBuffer` | kernel/src/vga_text_buffer.rs:284-292 | the bytes of a visible pixel are inside the framebuffer |
| `Screens.PlacedVisibleExact` | kernel/src/vga_text_buffer.rs:250-263 | from every cursor position a glyph lands wholly in visible rows and columns, exactly on frames that hold a glyph and its border |
| `TextWriter.Writer.constructor` | kernel/src/vga_text_buffer.rs:199-214 | a cleared screen |
| `TextWriter.Writer.WritePixel` | kernel/src/vga_text_buffer.rs:284-292 | exactly the bytes of that pixel change |
| `TextWriter.Writer.WriteRenderedChar` | kernel/src/vga_text_buffer.rs:268-276 | the framebuffer is the old one with the glyph in its cell, and the cursor moves on |
| `TextWriter.Writer.Clear` | kernel/src/vga_text_buffer.rs:225-229 | a black framebuffer with the cursor in the corner |
| `TextWriter.Writer.WriteChar` | kernel/src/vga_text_buffer.rs:239-266 | the screen is that of the specification; every write is in bounds |
| `TextWriter.Writer.WriteString` | kernel/src/vga_text_buffer.rs:294-298 | so it is for whole strings |
| `TextWriter.Writer.Backspace` | kernel/src/vga_text_buffer.rs:278-282 | so it is for backspaces, panics included |
| `ScreenRuns.ScreenFollowsParser` | kernel/src/vga_text_buffer.rs:239-298 | colour and parser state of the screen are those of the parser alone |
| `ScreenRuns.ScreenShows` | kernel/src/vga_text_buffer.rs:239-298 | the framebuffer and cursor after a string are those of drawing exactly what the parser shows, glyph by glyph in its colours |
| `ScreenRuns.PrintedScreen` | kernel/src/logging.rs:52-101 | writing what coloured spans print draws exactly their plain text in the right colours |
| `ScreenRuns.BackspacePanicExact` | kernel/src/vga_text_buffer.rs:278-282 | exactly when a backspace panics |
| `ScreenRuns.BackspaceAtLineStart` | kernel/src/vga_text_buffer.rs:278-282 | a character, a newline and a backspace panic |
| `ScreenRuns.BackspaceErases` | kernel/src/vga_text_buffer.rs:278-282 | a backspace blackens exactly the cell left of the cursor and moves there |
| `ScreenRuns.PrintedCells` | kernel/src/vga_text_buffer.rs:239-276 | text that stays on its row changes only the cells it passes |
| `ScreenRuns.BackspaceUndoes` | kernel/src/vga_text_buffer.rs:239-298 | text followed by as many backspaces brings the cursor back and leaves its cells black |
| `ScreenRuns.BackspaceUndoesExact` | kernel/src/vga_text_buffer.rs:239-298 | so it restores the whole screen iff those cells were black |
| `ScreenText.ControlExact` | kernel/src/vga_text_buffer.rs:216-223 | a newline goes 18 rows down to the left border, a carriage return to the left border |
| `ScreenText.GlyphLands` | kernel/src/vga_text_buffer.rs:239-276 | a printable character, byte for byte: at the cursor, or on the next row iff it would reach the right edge, or in the corner of a cleared screen iff that row would not fit; nothing else changes |
| `ScreenText.PixelAt` | kernel/src/vga_text_buffer.rs:284-292 | where a pixel of a cell is in the framebuffer |
| `ScreenText.GridShows` | kernel/src/vga_text_buffer.rs:239-298 | text that wraps fills a grid: the k-th glyph is shown in its own cell after the whole text |
| `ScreenText.GridElsewhere` | kernel/src/vga_text_buffer.rs:239-298 | and bytes outside those cells are as they were |
| `ScreenText.RowShows` | kernel/src/vga_text_buffer.rs:239-298 | text that stays on its row shows each glyph in its own cell |
| `ScreenText.NextLine` | kernel/src/vga_text_buffer.rs:216-298 | a second line leaves the first as it was and begins at the left border 18 rows further down |
| `ScreenText.NextLineShows` | kernel/src/vga_text_buffer.rs:216-298 | and is shown there |
| `ScreenText.AnsiColors` | kernel/src/vga_text_buffer.rs:300-318 | the eight foreground codes light the channels by the bits of their digit, in the order of the pixel format |
| `ScreenText.ResetIsWhite` | kernel/src/vga_text_buffer.rs:300-318 | the reset code lights all channels |
| `IoApic.PackedFields` | kernel/src/interrupts/apic/io.rs:137-153 | what is written has every field in the bits of section 3.2.4 of the datasheet |
| `IoApic.UnpackedFields` | kernel/src/interrupts/apic/io.rs:112-135 | what is read is what those bits hold |
| `IoApic.MappedBits` | kernel/src/interrupts/apic/io.rs:96-101 | mapping an entry sets bits 0 to 7, clears bit 16, and keeps bits 8 to 15 and the destination |
| `IoApic.RoundTripExact` | kernel/src/interrupts/apic/io.rs:112-153 | an entry written and read back is the same iff it is well formed |
| `IoApic.ReadThenWrite` | kernel/src/interrupts/apic/io.rs:112-153 | what is read is well formed, so writing it back and reading again changes nothing |
| `IoApic.ReservedBitsClear` | kernel/src/interrupts/apic/io.rs:137-153 | reserved bits are written as zero |
| `IoApic.WriteFrame` | kernel/src/interrupts/apic/io.rs:137-153 | writing an entry leaves the raw bits of all others and every other register unchanged |
| `IoApic.IoApic.constructor` | kernel/src/interrupts/apic/io.rs:49-67 | the entry count is one more than the version register says |
| `IoApic.IoApic.ReadU32` | kernel/src/interrupts/apic/io.rs:181-188 | the value of the selected register |
| `IoApic.IoApic.WriteU32` | kernel/src/interrupts/apic/io.rs:190-201 | exactly the selected register changes |
| `IoApic.IoApic.ReadEntry` | kernel/src/interrupts/apic/io.rs:112-135 | the entry held by registers 0x10 + 2i and 0x11 + 2i, which is well formed |
| `IoApic.IoApic.WriteEntry` | kernel/src/interrupts/apic/io.rs:137-153 | registers 0x10 + 2i and 0x11 + 2i hold the entry, and no other register changes |
| `IoApic.IoApic.Map` | kernel/src/interrupts/apic/io.rs:96-101 | the entry is unmasked at the given vector, its other fields and all other registers as they were |
| `IoApic.IoApic.MapAllToSpuriousVectors` | kernel/src/interrupts/apic/io.rs:103-110 | so is every entry; it panics iff there are more than 120, after the first 120 |
| `IoApic.IoApic.Initialize` | kernel/src/interrupts/apic/io.rs:83-94 | afterwards every entry has vector 39 in bits 0 to 7 of register 0x10 + 2i and bit 16 clear, with bits 8 to 15 and the destination preserved; it panics iff there are fewer than 3 or more than 120 entries |

## Left out

- The fallback heap of the `linked_list_allocator` crate: the in-repository first-fit heap stands in its place. The crate merges adjacent regions; the model of the fallback does not.
- The internals of `spin::Mutex`, `ArrayQueue`, `AtomicWaker`, `OnceCell` and of the `BTreeMap`s: each operation is atomic, and a handler runs to its end.
- `OffsetPageTable::map_to` and `unmap`: a page map that rejects mapped pages. Whether a page table can be allocated, and how many are drawn, are parameters; flushing is not modelled. `MapToRefines` and `UnmapRefines` prove this abstraction right for tables without huge pages, which `translate_addr` does not support either.
- Memory is made of aligned words; a store that is not aligned is one to each of the words it touches.
- Executor.Executor.Run: never returns in the source; the method covers as many rounds as it is given, so every finite part of a run.
- Executor.Executor.RunReadyTasks: covers as many polls as its script lists; futures and arrivals are given by the script, because what a future does is not in the source.
- Executor.Executor.PollKeyboard: covers as many stream polls as arrivals are given; the source goes on as long as scancodes keep coming.
- FixedSizeBlockAllocator.FixedSizeBlockAllocator.FallbackAlloc: serves from the in-repository first-fit heap, not from the crate's.
- SimpleExecutor.SimpleExecutor.Run: tasks that never become ready are excluded, since the source loops forever on them; `RunEndsExact` says so.
- TextWriter.Writer.constructor: the writer before `set_fb` has an empty frame and is not modelled; on frames smaller than a glyph with its border the source writes out of bounds and panics, which `PlacedVisibleExact` delimits.
- TextWriter.Writer.WriteChar: the row counter is unbounded; its 64-bit overflow after about 10^18 newlines is not modelled. Pixel formats other than RGB, BGR and U8 panic in the source and are not modelled.
- Overflow of the 64-bit task id counter, of the frame counter, and atomic memory orderings.
- IoApic.IoApic.ReadEntry: the two undefined delivery-mode codes are excluded, because the transmute of them is undefined behaviour; the same holds for Map, MapAllToSpuriousVectors and Initialize. Registers are plain memory; read-only bits are not modelled.
- IoApic.IoApic.constructor: the mapping of the register window and the alignment assertion are not part of this model; a count of 256, which overflows a byte, panics in the source and is excluded.
- Glyph rasters: the font is a parameter with sixteen rows of one width.
- ACPI tables and AML, PCI, symbol resolution, GDT, IDT, exception handlers, serial port, PIT, Local APIC, key decoding, and the launcher: port I/O, foreign code or table lookups.
