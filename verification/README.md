# NBOS: a verified model

NBOS is a small AArch64 teaching kernel. This project models its memory management, its bucket
allocator, its scheduler, its file layer and its formatter, and proves what they promise.

| file | models |
|---|---|
| PhysMem.dfy | the page allocator and the address arithmetic of include/mm.h |
| PageTable.dfy | four-level user page tables: `alloc_user_page(s)`, against a table walk as the MMU does it |
| Heap.dfy, Kmalloc.dfy | `kmalloc` and `free_s`: as a transition system on values, and as code over descriptors and RAM |
| Search.dfy | `free_s` with other calls between the steps of its search |
| UserMemory.dfy, Process.dfy | loading an image through the new tables, the records in `mm_struct`, `delete_process` |
| RecordArrays.dfy, MmSlot.dfy, CopyProcess.dfy | the record arrays whatever they hold, the slot of an `mm_struct` in RAM, `copy_process` |
| Ownership.dfy, Survival.dfy, Machine.dfy | the owner of each physical page, and page tables and records in RAM, over runs of all of the above; the methods that carry out such runs |
| List.dfy | the intrusive circular lists |
| Scheduler.dfy, Preemption.dfy | the scheduler as code over task structures, and step by step with ticks in between |
| Bytes.dfy, BlockCache.dfy, MinixFile.dfy, FileContents.dfy, FileRuns.dfy | buffers over a flat disk, chunked file reads and writes, what they mean, runs of them |
| Inodes.dfy, Directories.dfy, Path.dfy | the inode table, directory search, path resolution |
| Format.dfy, Printf.dfy | what the formatter prints, as a function, and its loops proved against that function |
| Conversions.dfy | that function in the terms of the C standard: directives as they are written, the bits of their arguments, the text |

Code that updates state in place is modelled by methods over arrays and objects, each proved against a
function of the old state; the theorems are about those functions and about runs of them. RAM is an array of
64-bit words and the disk an array of bytes. Ghost fields hold the abstract value (`space` of `MmStruct`,
`v` of `KernelHeap`, `queue` of `RunQueue`) and `Valid` (for record arrays `Recorded`) ties it to the real
fields. A 32-bit or 64-bit value is an integer with its bound, and wrap-around is written out where the code
relies on it.

## What the code turns out to do

- Mapping a page twice while `vma` has room records it twice; `delete_process` then gives it back twice and
  its count ends below zero (`MappedTwiceFreedTwice`). `RecordsExactIff` is the exact condition.
- `vma` has sixteen elements and one goes to the stack: there is a record of every page of a process if, and only if,
  its image has at most fifteen pages (`ImageRecords`), and only then does deleting it return all pages but the
  top-level table (`LeftBehind`). The top-level table and the `mm_struct` are never returned.
- `kmalloc` does not clear memory, and `copy_process` does not clear the `mm_struct`. A slot of a new bucket page is
  clear but for its first word, which becomes `pgd`. In a slot used before the tree comes out right and the records
  do so if, and only if, the words of the slot fit (`RecordsRightIff`, `CopyProcess`): for an image of fewer than
  fifteen pages, if every `pa` and every table but the second and third is null. An object with one such word that
  is freed and then becomes an `mm_struct` makes wrong records, whatever the heap (`ReuseSlot`).
- `alloc_user_pages` counts pages by the size alone. From the start of a page it maps exactly those with a byte of the
  range (`AllocUserPages`); from elsewhere it leaves out the page of the last byte if, and only if, the range runs into
  one page more than its size takes (`LastByteIff`).
- `delete_process` gives back what the record arrays name. Every page in use has exactly one owner over every run in
  which each process gets a slot that fits (`EveryPageOwned`), and one deletion keeps it so if, and only if, the
  records name different pages of the process's own tree (`DeleteOwnsIff`). A process created in a slot whose first
  element of `vma` still names the page of another owner gives that page away when it is deleted
  (`ForeignPageGivenBack`).
- The check of `prev` in `free_s` makes the unlinking right for every possible stale `prev` (`CommitFree`),
  so also after any kmalloc and free_s calls between its search and its critical section (`FreeSInterrupted`). The
  search itself, which runs with interrupts on, is right with any such calls between its steps as long as none gives
  back the page on whose descriptor it stands (`FreeSInterleaved`); after one that does, it wanders through the spare
  descriptors (`FreeUnderSearch`, `StaysAstray`).
- A tick between the choice of `schedule` and its switch lets the choice go out of date, and then the bound of
  round robin can fail in two ways: a task that arrived meanwhile is passed over (`LateChoiceSkips`), or, without
  any arrival, a task preempted before it reads `next` finds the choice of another and switches back
  (`BackChoiceSkips`). Both states are reached from boot. With all tasks RUNNING and at most one choice
  pending, the bound holds for every task and every run without further such ticks if, and only if, that choice is
  the chooser itself or the next task behind it (`BoundIff`), or the chooser is waiting and its turn comes last
  (`WaiterBoundIff`).
- Only the next task on the list is ever considered by the scheduler: if it is not RUNNING, no number of ticks
  brings any other task in (`StalledIff`).
- An indirect block holds two-byte entries but eight bytes are loaded: the right block is found if, and only if,
  the next three entries are zero (`IndirectIff`). In the double indirect range one level is looked up, and two file
  blocks share their block on every disk if, and only if, their quotients by 256 are the same
  (`DoubleIndirectShares`): what is written to two neighbours is read back as the second one twice
  (`SharedBlockReadBack`).
- `minix_iget` does not load the link count, so that writing the inode back replaces it by what the memory
  happened to hold (`LinkCountLost`).
- A name of thirty characters is found only if the inode number of the next entry has a zero low byte
  (`MatchesIff`).
- With `#` and no precision, a field width equal to the number of digits cuts digits off, and in base 16 with zero
  padding so does one that is greater by one; no other width does. Where zero padding leaves a place for a sign, the
  width counts one less, so that `%+#p` loses the top digit of a pointer of fourteen digits (`HashKeepsIff`). In base 2
  only the low 32 digits are printed (`BodyDenotes`).
- Where the formatter departs from section 7.21.6.1 of the C standard: `-` cancels the precision, a negative precision
  from an argument counts as zero and not as absent, `%p` takes sixteen characters whatever the width and prints the
  sign flags, and a text of digits that fills 32 characters has no sign (`IntegerPrinted`, `PointerPrinted`,
  `SignedReadsBack`).

## Model

| member | source | states |
|---|---|---|
| PhysMem.Ram.AllocPage | mm/mm.c:26-38 | takes the highest free page and changes no other count; -1, and no change, when there is none |
| PhysMem.Ram.GetFreePage | mm/mm.c:54-59 | with a page free, the page is clear, its count is 1, and every other page keeps its count and contents |
| PhysMem.Ram.FreePage | mm/mm.c:40-51 | drops one reference of the page at a kernel address |
| PhysMem.EntryAddress | include/mm.h:37-37 | entry i of a table page lies at eight times i behind the page's kernel address |
| PageTable.TreeTranslates | mm/mm.c:117-154 | in RAM that holds a tree, the walk of the MMU from its root yields the tree's page for every address below 2^48, and a fault where there is none |
| PageTable.TableDescriptor | include/mmu.h:5-6 | a page address with the table bits is a valid table descriptor whose output address, for the MMU and for ENTRY_GET_ADDR, is the page |
| PageTable.UserDescriptor | include/mmu.h:27-27 | a page address with the PTE flags is a page descriptor open to EL0 whose output address is the page |
| PageTable.IndexFields | include/mm.h:31-35 | the four table indexes of an address are the base-512 digits of its page number |
| PageTable.FillEntry | mm/mm.c:129-134 | an empty entry gets a fresh clear page and the RAM then holds the tree with that one node more; a filled one changes nothing |
| PageTable.EnsureTables | mm/mm.c:122-148 | the three table levels: missing tables are linked, and go one behind the other to where the first null pointer of pgtbl_page was, whatever the array holds |
| PageTable.AllocUserPage | mm/mm.c:110-163 | the tree and the counts become those of MapPage, the record arrays those of RecordPage whatever they held, the new page is clear, and no page used before changes but tables of this tree |
| PageTable.RecordUserPage | mm/mm.c:156-162 | the first element of vma with pa zero gets the mapping; an array without one stays as it is |
| PageTable.AllocUserPages | mm/mm.c:167-175 | the same for the pages of a range, in order, all those new being clear at the end; from the start of a page, what was mapped keeps its translation, and of the other pages those that hold one of the `size` bytes, and no others, are mapped now |
| PageTable.RangeIsUpdate | mm/mm.c:110-175 | mapping a range is a map update on translations: what was mapped keeps its translation, and exactly the pages of the range that were not are now mapped, to pages that were free |
| PageTable.RangeHoldsBytes | mm/mm.c:170-170 | from the start of a page, the pages counted for a size are those that hold a byte of the range |
| PageTable.LastByteIff | mm/mm.c:170-170 | from any address, the page of the last byte is among them if, and only if, the offsets of the first byte and of the length less one add up to less than a page |
| PageTable.OtherSpaceKept | mm/mm.c:110-175 | every other address space keeps its tree, its translations and the contents of its pages, and stays disjoint |
| Heap.LiveApart | mm/kmalloc.c:58-113 | live objects do not overlap |
| Heap.ChooseGood | mm/kmalloc.c:79-107 | the page kmalloc takes its object from is on the right chain and has a free slot; a page added was free |
| Heap.FreshPage | mm/kmalloc.c:84-112 | with no free slot on the chain kmalloc returns the start of a page that was free, and the slots left are the rest of it in ascending order |
| Heap.MallocKeeps | mm/kmalloc.c:58-113 | kmalloc keeps every chain, free list and count invariant, adds exactly the object it returns, which was not live, and that has at least the size asked for |
| Heap.FreeKeeps | mm/kmalloc.c:115-166 | free_s keeps them too, and removes exactly the object given |
| Heap.FreeUndoesMalloc | mm/kmalloc.c:79-166 | an object from a page that was there before, freed right away, leaves the heap as it was, so that the next request of that size gets it |
| Heap.MallocForeign | mm/kmalloc.c:90-98 | kmalloc changes no reference but those of bucket and descriptor pages |
| Heap.FreeForeign | mm/kmalloc.c:159-163 | nor does free_s |
| Heap.NothingLive | mm/kmalloc.c:139-163 | with no live object every chain is empty |
| Heap.RunKeeps | mm/kmalloc.c:58-166 | over any run the heap stays valid, its live objects are those returned and not yet freed, and nobody else's pages are touched |
| Heap.AllFreed | mm/kmalloc.c:58-166 | a run that frees all it allocates empties every chain and returns every data page |
| Kmalloc.KernelHeap.InitBucketDesc | mm/kmalloc.c:36-56 | a page is carved into descriptors, all put on the free list |
| Kmalloc.KernelHeap.AddBucket | mm/kmalloc.c:90-106 | a new bucket page is threaded slot by slot and linked at the head of its chain |
| Kmalloc.KernelHeap.Kmalloc | mm/kmalloc.c:58-113 | the pointers and free-list words in RAM keep describing the heap, which becomes the one of Malloc; used pages keep their contents; an object from a new page is clear but for its first word |
| Kmalloc.KernelHeap.FindObject | mm/kmalloc.c:123-135 | the search yields the descriptor of the page of a live object, and the class of its chain |
| Kmalloc.KernelHeap.FindPrev | mm/kmalloc.c:147-151 | whatever `prev` is given, the check and rescan yield the true predecessor, or null at the head |
| Kmalloc.KernelHeap.UnlinkBucket | mm/kmalloc.c:152-162 | the descriptor leaves its chain, the page is given back and the descriptor becomes spare |
| Kmalloc.KernelHeap.CommitFree | mm/kmalloc.c:138-164 | the critical section, started with any `prev`, takes the heap to the one of Free; of memory only the first word of the object changes |
| Kmalloc.KernelHeap.FreeS | mm/kmalloc.c:115-166 | free_s takes the heap to the one of Free, and of memory only the first word of the object changes |
| Kmalloc.KernelHeap.FreeSInterrupted | mm/kmalloc.c:123-164 | so it does when any run of kmalloc and free_s of other objects comes between the search and the critical section; every object that is not freed and every page of others keeps its contents |
| Kmalloc.KernelHeap.Serve | mm/kmalloc.c:58-166 | over any run of kmalloc and free_s the RAM follows the heap of module Heap, and no byte of an object that stays allocated, or of a page of others, changes |
| Kmalloc.StepUndisturbed | mm/kmalloc.c:58-166 | one call leaves every other live object its page, descriptor and bytes |
| Kmalloc.Predecessor | mm/kmalloc.c:147-151 | a descriptor that points to the one of a page is its predecessor on the chain, and the head of the chain does so only when the page is first |
| Search.FindInterrupted | mm/kmalloc.c:123-135 | the search, with any calls of kmalloc and free_s between its steps that do not free the object nor give back the page it stands on, ends at the descriptor of the object's page, on its chain |
| Search.FreeSInterleaved | mm/kmalloc.c:123-164 | free_s with such calls between the steps of its search and before its critical section takes the heap, as it is by then, to the one of Free and disturbs nothing else |
| Search.OrderKept | mm/kmalloc.c:90-162 | calls change a chain at its head or take a page out, so that the pages that stay keep their order |
| Search.FreeUnderSearch | mm/kmalloc.c:152-162 | freeing the last object of the page the search stands on leaves it on a spare descriptor |
| Search.StaysAstray | mm/kmalloc.c:128-132 | from a spare descriptor the search meets spare descriptors only, never that of a page |
| UserMemory.LoadImage | kernel/task.c:134-136 | copying to user addresses through the new tables puts each byte in place and changes no page but those of the image |
| UserMemory.ImageIsSeen | kernel/task.c:134-136 | a user access at address k through the table reads byte k of the image |
| UserMemory.WordOfBytes | kernel/task.c:134-134 | the eight bytes by which a word of RAM is read make it up, the lowest first |
| UserMemory.UserBytesApart | mm/mm.c:150-154 | different user addresses of a tree are different bytes of RAM |
| Process.RecordsExactIff | mm/mm.c:151-162 | mapping a page keeps the records exact if, and only if, the page is new and vma has room, or it is not new and vma is full |
| Process.AllExactIff | mm/mm.c:110-175 | any calls of alloc_user_pages keep exact records exact if, and only if, the pages mapped while vma has room are different and new, and those mapped afterwards are not new |
| Process.DeleteProcess | kernel/task.c:179-209 | a zombie's user pages, tables and stack, as its record arrays name them whatever they hold, each lose one reference, in that order; any other task is left alone |
| Process.FreeUserPages | kernel/task.c:189-196 | the loop over vma drops one reference for each element in front of the first empty one |
| Process.FreeTables | kernel/task.c:199-204 | the loop over pgtbl_page drops one reference for each pointer that is not null |
| Process.DeleteReleases | kernel/task.c:179-209 | when the arrays name different pages of the tree, the stack and each page named go from one reference to none, and no other count changes |
| Process.RecordedNamesOwn | kernel/task.c:189-204 | right records name different pages of the tree, those of the nodes recorded |
| Process.AllButTopRecorded | kernel/task.c:189-204 | with exact records that is every page of the tree but the top-level table |
| Process.MappedTwiceFreedTwice | mm/mm.c:151-162 | a page mapped again while vma has room ends with a count below zero |
| Process.StackTables | kernel/task.c:127-127 | the stack takes three tables |
| Process.ImageTables | kernel/task.c:130-130 | an image of n pages takes one more for each 512 pages begun, so that from 1 to 512 pages there are four |
| Process.ImageRecords | kernel/task.c:105-143 | the tables are always recorded; all user pages are if, and only if, the image has fewer than sixteen pages |
| Process.ImageClaims | kernel/task.c:124-130 | each node of a new tree sits on a page of its own that was free, with one reference, and no other count changes |
| RecordArrays.FillIff | mm/mm.c:156-162 | entries put one after the other into the first empty elements of an array come out as listed if, and only if, the array was empty up to some element and held from there on what it was to get, with the list filling it |
| RecordArrays.TablesIff | mm/mm.c:122-148 | pgtbl_page comes out right if, and only if, its elements were null but for the second and third |
| RecordArrays.RecordsRightIff | kernel/task.c:123-130 | the records of a new process come out right if, and only if, what the arrays held fits |
| RecordArrays.DirtyNamed | kernel/task.c:123-196 | an element in use among the first of a slot, up to one behind those that the process fills, is never overwritten, and the loop of delete_process reaches it |
| RecordArrays.SmallImageFits | kernel/task.c:123-130 | with fewer than sixteen pages to record that means that those elements were all null |
| MmSlot.ViewSlot | kernel/task.c:123-123 | the mm_struct that a pointer to the slot gives has the words of the slot as its arrays |
| MmSlot.StoreFields | mm/mm.c:122-162 | the fields are in the slot, and no other word of RAM changes |
| CopyProcess.PrepareSpace | kernel/task.c:124-130 | the top-level table, stack and image pages are taken from free pages only; the stack page is clear |
| CopyProcess.TakeSlot | kernel/task.c:123-123 | the slot holds what its bucket page held there, or nothing behind the first word if the page is new |
| CopyProcess.CopyProcess | kernel/task.c:105-143 | whatever the slot held, heap, counts and tree become those of Create, the process sees the source bytes from address 0 on and a clear stack, and can access the stack page, the pages that hold a byte of the image and no others; the slot holds the mm_struct, and no other word of a used page changes; the records are right if, and only if, what the slot held fits |
| CopyProcess.ImageIsMapped | kernel/task.c:127-130 | an address of a new process translates if, and only if, it is in the last page below 1 GB or in a page with a byte of the image |
| CopyProcess.DirtyWord | kernel/task.c:123-130 | a single word that is not null among those that must be makes the slot unfit, if vma is not filled |
| CopyProcess.CleanWords | kernel/task.c:123-130 | with all of them null it fits |
| CopyProcess.ReuseSlot | kernel/task.c:123-130 | kmalloc, a store of such a word, free_s and copy_process: the process gets that object and its records are wrong, whatever the heap |
| Ownership.MallocOwns | mm/kmalloc.c:58-113 | kmalloc keeps every page in use with exactly one owner |
| Ownership.FreeOwns | mm/kmalloc.c:115-166 | so does free_s |
| Ownership.TakeOwns | kernel/task.c:160-175 | so does kthread_create, which keeps its page |
| Ownership.CreateOwns | kernel/task.c:105-143 | so does copy_process |
| Ownership.DeleteOwns | kernel/task.c:179-209 | so does delete_process when the records name different pages of the process: the pages given back lose their owner and all others keep theirs |
| Ownership.DeleteOwnsIff | kernel/task.c:179-209 | deleting a process keeps every page in use with exactly one owner if, and only if, its records name different pages of its tree |
| Ownership.NextKeepsIff | kernel/task.c:105-209 | any call keeps the ownership of pages, the heap and the slots right if, and only if, it is not the deletion of a process whose records name anything else |
| Ownership.EveryPageOwned | kernel/task.c:105-209 | in every state reached from boot by creating processes in slots that fit, the pages in use are exactly those with an owner, no page has two, and all records are right |
| Ownership.ForeignPageGivenBack | kernel/task.c:123-196 | a process created in a slot with an element of vma that names the page of another owner takes that page from it when deleted: the owner is left with a page without references |
| Ownership.SpacesApart | mm/mm.c:110-175 | two live processes share no page |
| Survival.TreesInRam | kernel/task.c:105-209 | in every state reached from boot by calls that create processes in slots that fit, and by stores of processes to their pages, of owners to their objects and of the kernel to its pages, RAM holds the page tables of every live process and the slot of every process its records |
| Survival.TranslationsSurvive | mm/mm.c:110-175 | over any such run, as long as a process lives, each of its addresses keeps its translation |
| Survival.TablesUntouched | kernel/task.c:105-209 | no call and no such store changes a table of a live process |
| Survival.SlotUntouched | kernel/task.c:105-209 | nor a word of the slot of a process |
| Machine.CallMalloc | mm/kmalloc.c:58-113 | kmalloc takes the kernel, with its RAM, to the next state of such a run |
| Machine.CallFree | mm/kmalloc.c:115-166 | so does free_s |
| Machine.CallThread | kernel/task.c:160-168 | so does taking the page of a kernel thread |
| Machine.CallCreate | kernel/task.c:105-143 | so does copy_process, if the slot it gets fits; whatever the slot, the call is a step of the run |
| Machine.CallDelete | kernel/task.c:179-209 | so does delete_process, working from what the slot holds |
| Ownership.LeftBehind | kernel/task.c:179-209 | a deleted process whose records were right holds its mm_struct and top-level table, and nothing else if, and only if, its image had at most fifteen pages |
| List.InitListHead | include/list.h:16-20 | the node is a list without elements |
| List.ListAddBetween | include/list.h:28-37 | the node is put between two neighbours of a ring |
| List.ListAdd | include/list.h:47-50 | the node becomes the first element, and every ring without nodes of this one stays a ring |
| List.ListAddTail | include/list.h:61-64 | the node becomes the last element, and every other ring stays one |
| List.ListDel | include/list.h:74-83 | the node leaves the ring, which stays a ring, its own links are cleared, and every other ring stays one |
| List.ListEmpty | include/list.h:90-93 | tells whether there are elements |
| List.ListForEach | include/list.h:111-112 | visits every element once, in order, and ends |
| List.LinksInverse | include/list.h:16-83 | forward and backward links are inverses all around a ring |
| List.OneList | include/list.h:16-83 | the links determine the sequence |
| List.Rotated | include/list.h:111-112 | any node of a ring can serve as its start |
| Scheduler.RunQueue.PreemptDisable | kernel/task.c:18-22 | the current task's count goes up by one and nothing else changes |
| Scheduler.RunQueue.PreemptEnable | kernel/task.c:24-28 | it goes down by one |
| Scheduler.RunQueue.SwitchTo | kernel/task.c:33-50 | the current task becomes the one given if that is there and its state RUNNING, and otherwise stays; no state changes; the task left keeps one count, the one continued gives one up, and one that never ran starts with none |
| Scheduler.RunQueue.SelectNextTask | kernel/task.c:54-64 | `next` becomes the task behind the current one on the list |
| Scheduler.RunQueue.SchedulerTick | kernel/task.c:68-80 | the current task becomes the one next on the list if the count is not positive and the state of that one RUNNING, and otherwise stays; no state changes |
| Scheduler.RunQueue.Schedule | kernel/task.c:84-91 | the same for a voluntary call |
| Scheduler.RunQueue.TaskAdd | kernel/task.c:95-100 | the task is RUNNING and last on the list, and all others keep their state and place |
| Scheduler.RunQueue.AddTask | kernel/task.c:163-174 | task creation leaves the count of the current task as it was |
| Scheduler.RunQueue.constructor | init/init_task.c:60-66 | init_task heads a list of its own and is current |
| Preemption.NextKeeps | kernel/task.c:18-100 | every step of a task and every tick keeps the counts, the links and the saved arguments right |
| Preemption.PreemptCounts | kernel/task.c:18-100 | in every state reached: the current task has as many counts as critical sections it is in, a task switched out after having run has one, one that never ran has none; and with preemption possible the list is a ring of all tasks |
| Preemption.SwitchAtZero | kernel/task.c:68-91 | the current task changes only in a tick at count zero or in its own call of schedule |
| Preemption.SwitchesToRunning | kernel/task.c:33-91 | the task switched to is RUNNING, whatever the event; a tick switches if, and only if, it finds the count at zero and the next task on the list is another one and RUNNING |
| Preemption.StatesKept | kernel/task.c:33-100 | only its own exit ends a task's being RUNNING, and only its insertion makes it so |
| Preemption.InsertionUndisturbed | kernel/task.c:95-100 | ticks between the stores of a task's insertion change nothing; the list ends with the new task at its end |
| Preemption.ScheduleAlone | kernel/task.c:84-91 | schedule taken step by step without ticks is the atomic schedule |
| Preemption.RoundRobin | kernel/task.c:54-100 | among RUNNING tasks whose pending choices are in order, one at distance d gets its turn within d effective ticks and one more for each arrival, whatever calls of schedule there are, as long as no tick switches tasks between the choice and the switch of such a call |
| Preemption.BoundIff | kernel/task.c:54-91 | with no choice of a waiting task pending, that bound holds for every task and run if, and only if, the choice of the current task, if it has made one, is itself or the next task on the list |
| Preemption.WaiterBoundIff | kernel/task.c:54-91 | with one waiting task past its choice, it holds if, and only if, that choice is the task itself or the next behind it, or all others come before it |
| Preemption.NotBefore | kernel/task.c:54-100 | without calls of schedule it does not get its turn before the d-th effective tick |
| Preemption.LateChoiceSkips | kernel/task.c:84-91 | a concrete run in which a choice gone out of date passes over a task, so that two effective ticks are not enough at distance two |
| Preemption.LateStateReached | kernel/task.c:54-100 | the state that run starts from is reached from boot |
| Preemption.BackChoiceSkips | kernel/task.c:54-91 | without any arrival a task that reads the choice of another switches back and passes over the next task |
| Preemption.BackStateReached | kernel/task.c:54-100 | that state, too, is reached from boot |
| Preemption.StalledIff | kernel/task.c:39-60 | with the count at zero, ticks alone never change the current task if, and only if, the next one on the list is itself or its state is not RUNNING |
| BlockCache.BlockDevice.PflashRead | fs/fs.c:48-52 | the buffer gets the block's bytes |
| BlockCache.BlockDevice.PflashWrite | fs/fs.c:67-77 | the block on disk gets the buffer's bytes and no other byte changes |
| BlockCache.BlockDevice.Bread | fs/fs.c:84-99 | a new clean buffer with the block's bytes goes to the front of the list |
| BlockCache.BlockDevice.GetBlk | fs/fs.c:103-117 | yields a buffer of the block, and outside the inode table its bytes are those on disk |
| BlockCache.BlockDevice.Brelse | fs/fs.c:121-132 | a dirty buffer is written back; the buffer leaves the list, and the cache is coherent again |
| MinixFile.InodeGetBlk | fs/minix_fs.c:147-171 | block n below seven is the one that zone n names, the others are found as Locate does; the bytes are those on disk; null beyond the largest file |
| MinixFile.MinixRead | fs/minix_fs.c:204-230 | returns the bytes of ReadSpec for any position, count and cache, leaves the disk alone and the cache coherent; -1 when a block is missing or nothing is asked for |
| MinixFile.MinixWrite | fs/minix_fs.c:232-259 | leaves on disk what WriteSpec says, and the cache coherent; -1 in the same cases |
| MinixFile.FileRead | fs/fs.c:326-341 | the position advances by what was read, and not after a failure |
| MinixFile.FileWrite | fs/fs.c:344-360 | the same for writing |
| FileContents.ReadBytes | fs/minix_fs.c:210-227 | byte k of a read is the byte of the disk to which position pos + k is mapped |
| FileContents.DirectByte | fs/minix_fs.c:157-158 | a byte read from one of the first seven blocks is that of the disk at its zone times 1024 plus its offset |
| FileContents.DirectRead | fs/minix_fs.c:204-230 | with these zones on disk all bytes asked for are read |
| FileContents.ReadFails | fs/minix_fs.c:157-169 | a read fails if, and only if, it reaches past the double indirect range |
| FileContents.WriteLands | fs/minix_fs.c:238-256 | over steady blocks each byte written is found where its position is mapped |
| FileContents.WriteFrame | fs/minix_fs.c:238-256 | no other byte of the disk changes |
| FileContents.DirectLands | fs/minix_fs.c:232-259 | a write to such blocks with different zones succeeds and puts each byte at its zone times 1024 plus its offset |
| FileContents.DirectFrame | fs/minix_fs.c:232-259 | and changes no other byte of the disk |
| FileContents.MapKept | fs/minix_fs.c:157-166 | a write over steady blocks succeeds and leaves every block map whose indirect blocks it does not hit |
| FileContents.ReadAfterWrite | fs/minix_fs.c:204-259 | what was written is read back, for any position and length |
| FileContents.OtherFileKept | fs/minix_fs.c:232-259 | a file that shares no block reads as before |
| FileContents.ReadSplits | fs/fs.c:326-341 | reading in two goes gives the bytes of reading in one |
| FileContents.SteadyCanWrite | fs/minix_fs.c:232-259 | a write over steady blocks is within what minix_write handles |
| FileContents.IndirectIff | fs/minix_fs.c:161-163 | an indirect entry is honoured if, and only if, the next three are zero |
| FileContents.IndirectByte | fs/minix_fs.c:159-163 | a byte read through an indirect entry of two bytes, with six zero bytes behind it, is that of the block that these name, low byte first |
| FileContents.DoubleIndirectShares | fs/minix_fs.c:164-166 | two file blocks of the double indirect range have the same block on every disk if, and only if, their quotients by 256 are the same |
| FileContents.DoubleByte | fs/minix_fs.c:164-166 | a byte read in that range is that of the block named by the two bytes of the second such block at the offset of a 256th of its place in the range, if six zero bytes follow them |
| FileContents.SharedBlockReadBack | fs/minix_fs.c:204-259 | two blocks written to neighbours that share are read back as the second twice, and so as written if, and only if, they were the same |
| FileRuns.ServeAll | fs/minix_fs.c:175-330 | over any run of file reads and writes, directory searches, inode loads and inode write-backs, from any coherent cache, the answers and the disk are those of the flat disk alone |
| Inodes.EncodeDecodes | include/fs/minix_fs.h:66-74 | fields that fit their widths survive the disk layout |
| Inodes.DecodeEncodes | include/fs/minix_fs.h:66-74 | loading and storing with another link count changes that byte alone |
| Inodes.DecodedBytes | include/fs/minix_fs.h:66-74 | each field byte for byte: its place in the 32 bytes, and the low byte first |
| Inodes.TypeTests | include/fs/fs.h:9-23 | an inode is a directory or a file if, and only if, its mode without the low twelve bits is 0040000 or 0100000 |
| Inodes.SuperBlock.MinixRawInode | fs/minix_fs.c:80-99 | for a valid number a fresh buffer with the bytes on disk, and the inode's offset in it; stale buffers are not consulted |
| Inodes.SuperBlock.GetInode | fs/fs.c:199-230 | the inode with that number if it is in the list, with one reference more and otherwise as it was, or else a new one at its front; all others stay as they were |
| Inodes.SuperBlock.MinixIget | fs/minix_fs.c:103-143 | a cached inode gains a reference and otherwise stays; a new one gets the fields on disk, but for the link count, the one time in all three fields, and operations by its type; the others stay as they were |
| Inodes.SuperBlock.MinixWriteInode | fs/minix_fs.c:305-330 | the inode's 32 bytes on disk become the encoded fields and nothing else changes; an invalid number writes nothing |
| Inodes.SuperBlock.InodeReadBack | fs/minix_fs.c:305-330 | the fields are read back, and every other inode and every other block keeps its bytes |
| Inodes.SuperBlock.LinkCountLost | fs/minix_fs.c:122-128 | an inode loaded and written back leaves the disk as it was if, and only if, the memory happened to hold its link count |
| Inodes.SuperBlock.RawApart | fs/minix_fs.c:9-21 | two inodes have no byte in common |
| Inodes.SuperBlock.RawPlace | fs/minix_fs.c:9-21 | inode n is the 32 bytes at (2 + imap + zmap) * 1024 + (n - 1) * 32 |
| Directories.MatchesIff | fs/minix_fs.c:192-195 | the comparison finds the entry that stores the name; a name of thirty characters also needs a zero byte at the start of the next entry |
| Directories.Strcmp | lib/lib.c:6-12 | zero exactly when the bytes up to and with the NUL are the same |
| Directories.FindInBlock | fs/minix_fs.c:192-197 | the first entry of a block that matches |
| Directories.LookUpIs | fs/minix_fs.c:187-200 | for a name of fewer than thirty characters the search ends with the number in the first two bytes of the first entry that stores it, and finds nothing if, and only if, there is none |
| Directories.LookUpRoundTrip | fs/minix_fs.c:187-200 | if an entry is a number of two bytes followed by the name and zeros, and none before it stores that name, looking it up yields that number |
| Directories.MinixLookup | fs/minix_fs.c:175-201 | null for a non-directory, a long name, no match or the number 0, and otherwise the inode of the first matching entry, with its fields as on disk if it was not in memory; for a name of fewer than thirty characters its number is that in the first two bytes, low byte first, of the first entry that stores the name |
| Path.PathLen | fs/fs.c:138-156 | counts the leading slashes and the name behind them |
| Path.LookUpInode | fs/fs.c:188-188 | one lookup through the caches is the lookup on disk |
| Path.Namei | fs/fs.c:159-196 | with the inodes in memory as on disk, resolution is the fold over the components of the lookup that the disk decides, whatever is cached, and the name buffer is not overrun |
| Path.ComponentsJoin | fs/fs.c:183-191 | joining paths with a slash joins their components |
| Path.ResolveJoin | fs/fs.c:159-196 | resolving p/q is resolving q from where p leads |
| Path.RepeatedSlash | fs/fs.c:146-149 | a repeated slash changes nothing, for every path |
| Path.TrailingSlash | fs/fs.c:183-183 | nor does one at the end |
| Path.AbsolutePath | fs/fs.c:166-174 | a path that begins with a slash is resolved from the root, whatever the current directory is |
| Path.ResolveName | fs/fs.c:166-191 | a name is one lookup where it starts from, with or without a "./" in front |
| Path.DotSlashOnce | fs/fs.c:176-178 | of several leading "./" one is dropped |
| Path.ComponentsBack | fs/fs.c:183-191 | names joined by slashes come out as the components |
| Path.ResolveNames | fs/fs.c:183-191 | a name more at the end of an absolute path is one lookup more, where the path leads |
| Path.EntryResolves | fs/fs.c:159-196 | a name stored by an entry of the current directory on disk resolves to the number in that entry |
| Format.DigitsDenote | lib/printf.c:292-297 | the digits generated denote the value modulo the power of the base that there is room for |
| Format.NumberShape | lib/printf.c:227-277 | without '#' a number is spaces, sign, digits and spaces |
| Format.BodyDenotes | lib/printf.c:281-301 | the digits printed, zeros included, denote the value modulo base^32 |
| Format.ValuePrinted | lib/printf.c:281-301 | in bases 8, 10 and 16 the digits printed denote the value itself, for all 64-bit values |
| Format.AtoiReads | lib/printf.c:188-195 | _atoi is reading in base 10 modulo 2^32 |
| Format.AtoiInverse | lib/printf.c:188-195 | _atoi gives back every number below 2^32 from its unpadded decimal print |
| Format.FieldWidth | lib/printf.c:199-277 | the length of an integer field: the width, unless sign and digits, or the zeros of the precision, need more; '-' cancels the precision |
| Format.HashShape | lib/printf.c:243-264 | with '#' a number in any base is spaces, sign, prefix, the digits that were not cut, and spaces |
| Format.HashKeepsIff | lib/printf.c:228-249 | those digits denote the number if, and only if, there is a precision, or the width, less the place zero padding leaves for a sign, is not the number of its digits nor, in base 16 with zero padding, one more |
| Conversions.DirectiveRead | lib/printf.c:601-680 | a directive as it is written, with its flags in any order, its width and precision in decimal or from arguments and its length, is read as what it says |
| Conversions.IntegerPrinted | lib/printf.c:682-756 | %d, %i, %u, %x, %X, %o and %b without a prefix: sign, digits in their base that denote the number in the argument, no zeros in front but those asked for, in a field of the width, at the side asked for |
| Conversions.SignedReadsBack | lib/printf.c:721-738 | %d and %i: there is a minus sign if, and only if, the top bit of the argument's width is set and the digits leave room for it, and the digits read back in base 10 are the distance from zero of the number in two's complement |
| Conversions.UnsignedReadsBack | lib/printf.c:735-753 | the others, and characters: the digits read back in base 10, 16, 8 or 2 are the bits of the argument, in base 2 the low 32 |
| Conversions.PrefixPrinted | lib/printf.c:682-757 | with '#': prefix and digits in the field, and the digits denote the number if, and only if, there is a precision, or the width is not the number of digits nor, in base 16 with zero padding, one more |
| Conversions.CharPrinted | lib/printf.c:776-794 | %c: the low byte of the argument in its field |
| Conversions.StringPrinted | lib/printf.c:796-820 | %s: the string, cut to the precision if there is one, in its field |
| Conversions.PointerPrinted | lib/printf.c:822-838 | %p: sixteen characters, the digits in upper case |
| Conversions.PrefixedPointer | lib/printf.c:822-838 | %p with '#', where a sign flag takes a place |
| Conversions.OtherPrinted | lib/printf.c:840-848 | any other character behind a '%' is printed as it is, `f` and `e` too, since the code is built without floating point |
| Conversions.TextPrinted | lib/printf.c:588-594 | characters in front of a '%' are printed as they are |
| Conversions.DirectiveApart | lib/printf.c:586-847 | a directive prints the same text whatever follows it, and what follows gets the arguments left |
| Printf.OutBuffer | lib/printf.c:133-138 | writes below maxlen only |
| Printf.PrintReversed | lib/printf.c:199-223 | prints the scratch text backwards, padded with spaces on the side asked for |
| Printf.FillScratch | lib/printf.c:227-275 | the scratch text with zeros, prefix and sign, never longer than 32 |
| Printf.FillDigits | lib/printf.c:292-297 | the do-while loop yields the digits, last first |
| Printf.NtoaLong | lib/printf.c:281-333 | appends the text of Ntoa |
| Printf.ReadAtoi | lib/printf.c:188-195 | the number at the start of the format, modulo 2^32, and the format behind it |
| Printf.ReadDirective | lib/printf.c:601-680 | flags, width, precision, length, and the arguments they use |
| Printf.PrintDirective | lib/printf.c:682-848 | appends the text of the conversion, of which the lemmas of Conversions say what it is |
| Printf.Vsnprintf | lib/printf.c:577-857 | for every buffer size the length of the whole text is returned, nothing is written at maxlen or above, and the buffer holds the text cut to maxlen - 1 characters with a NUL behind it |
| Printf.TruncationSimulates | lib/printf.c:849-856 | the truncated output is a prefix of the whole output |

## Left out

- Registers, interrupt controller, timer, UART, boot and vector code: hardware. A context switch is "current
  becomes next", and flash access is block copy.
- `map_kernel_section(s)`: three levels of the same construction over a static table, with no records.
- `clear_zombie`, soft timers: both go on from a node whose links `list_del` has cleared.
- Removal of tasks from the list: places on the task list are fixed in Scheduler.dfy and Preemption.dfy, and
  tasks that exit stay as ZOMBIE. `ListDel` is proved for lists as such.
- Nested interrupts inside `scheduler_tick`: a tick is atomic.
- Preemption.RoundRobin: not for runs in which a tick switches tasks between the choice and the switch of a call of
  `schedule`, since such a tick leaves a choice that can be out of order later. States in which several waiting
  tasks, or the current one and a waiting one, have choices pending are covered by the condition that all are in
  order, which is sufficient there and not shown to be necessary.
- CopyProcess.CopyProcess: the register frame on the stack page, `canary` and the insertion in the task list are not
  modelled. The fields of the `mm_struct` are held in arrays that are read from the slot once and stored in it once,
  before the image is loaded; the source may not lie in the slot.
- Process.DeleteProcess: without the removal from the task list. Requires that the pages named exist, since `mem_map`
  has no element for others.
- Survival.TreesInRam: stores between calls are those of processes to their pages, of the kernel to its pages and
  stacks, and of owners to their objects, but not to the `mm_struct` of a process.
- Search.FreeSInterleaved: calls that come in between run to their end; saving and restoring the interrupt flag is not
  modelled.
- Kmalloc.KernelHeap.InitBucketDesc: descriptors are objects that stand for the parts of the carved page; of that
  page the model keeps the number and the count, not the bytes.
- PhysMem.Ram.GetFreePage: requires a free page, since the code does not handle NULL, and clears by words.
- PageTable.AllocUserPage: a full `pgtbl_page` is overrun by up to three pointers, as in the code, into words that the
  model counts as part of the slot.
- BlockCache.BlockDevice.GetBlk: one device, and the list as a sequence of buffers; freeing their memory is not
  modelled.
- MinixFile.InodeGetBlk: requires that the eight bytes loaded lie inside the indirect block and that the blocks
  found are on disk and outside the inode table.
- Directories.MinixLookup: requires that strcmp stays inside the block.
- FileContents.DoubleIndirectShares: not for the last file blocks, for which eight bytes are loaded from behind the end
  of the buffer.
- Path.Namei: components before the last must lead to directories, since other inodes have no lookup operation, and
  the inodes in memory must agree with the disk. References that lookups leave behind are not given back, in the
  code or here.
- Inode lifetime past a count of zero, `minix_fill_super`, `minix_put_super`, the file table and `file_lseek`.
- System call dispatch and argument checks.
- Printf.Vsnprintf: output to a buffer; the other output functions, floating point, the cut of the returned length
  to an int and formats that end in an incomplete directive are left out. `0 - value` for the smallest integer
  is taken to wrap.
- Page flags, canaries and debug printing.
