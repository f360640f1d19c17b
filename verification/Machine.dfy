/** The calls of module Survival as the code makes them, on the heap of the kernel and on RAM. */
module Machine {
  import opened PhysMem
  import opened PageTable
  import opened Heap
  import opened Kmalloc
  import opened UserMemory
  import opened Process
  import opened RecordArrays
  import opened MmSlot
  import opened CopyProcess
  import opened Ownership
  import opened Survival

  /** The kernel is in state `s`. */
  ghost predicate InState(kh: KernelHeap, s: System)
    reads kh, kh.dir, kh.ram.mem, kh.ram.count, kh.v.descs
  {
    kh.Valid() && kh.v.heap == s.heap && Held(s, kh.ram.Mem())
  }

  lemma HeapIs(kh: KernelHeap, s: System)
    requires InState(kh, s)
    ensures kh.Valid() && kh.ram.Valid() && kh.v.heap == s.heap && s.heap.count == kh.ram.Count() && GoodHeap(s.heap)
    ensures |s.heap.count| == PAGING_PAGES && Held(s, kh.ram.Mem()) && Inv(s) && RecordsHeld(s, kh.ram.Mem())
  {
    SameKeys(kh);
  }

  lemma StateAfter(kh: KernelHeap, s: System, m: Memory, e: Event)
    requires Held(s, m) && Possible(s, e) && Fits(s, e) && kh.Valid() && kh.v.heap == Next(s, e).heap
    requires CanTake(s, m, Call(e, kh.ram.Mem()))
    ensures InState(kh, Next(s, e))
  {
    SameKeys(kh);
    hide Held, CanTake, Next, Fits, KernelHeap.Valid;
    MoveKeeps(s, m, Call(e, kh.ram.Mem()));
  }

  method CallMalloc(kh: KernelHeap, ghost s: System, len: nat) returns (obj: int)
    requires InState(kh, s) && Possible(s, EMalloc(len))
    modifies kh, kh.dir, kh.ram.mem, kh.ram.count, kh.v.descs
    ensures InState(kh, Next(s, EMalloc(len))) && CanTake(s, old(kh.ram.Mem()), Call(EMalloc(len), kh.ram.Mem()))
  {
    hide KernelHeap.Valid, Held, GoodHeap, CanMalloc, Malloc;
    HeapIs(kh, s);
    ghost var m := kh.ram.Mem();
    obj := kh.Kmalloc(len);
    StateAfter(kh, s, m, EMalloc(len));
  }

  method CallFree(kh: KernelHeap, ghost s: System, obj: int)
    requires InState(kh, s) && Possible(s, EFree(obj))
    modifies kh, kh.dir, kh.ram.mem, kh.ram.count, kh.v.descs
    ensures InState(kh, Next(s, EFree(obj))) && CanTake(s, old(kh.ram.Mem()), Call(EFree(obj), kh.ram.Mem()))
  {
    hide KernelHeap.Valid, Held, GoodHeap, Free, IsLive;
    HeapIs(kh, s);
    SizePositive(kh.v.heap, obj);
    ghost var m := kh.ram.Mem();
    kh.FreeS(obj, 0);
    StateAfter(kh, s, m, EFree(obj));
  }

  method CallThread(kh: KernelHeap, ghost s: System) returns (va: int)
    requires InState(kh, s) && Possible(s, EThread)
    modifies kh`v, kh.ram.mem, kh.ram.count
    ensures InState(kh, Next(s, EThread)) && CanTake(s, old(kh.ram.Mem()), Call(EThread, kh.ram.Mem()))
  {
    HeapIs(kh, s);
    hide KernelHeap.Valid, Held, GoodHeap, FreePages, HighestFree;
    ghost var m := kh.ram.Mem();
    ghost var p;
    va, p := GetPage(kh);
    StateAfter(kh, s, m, EThread);
  }

  method CallCreate(kh: KernelHeap, ghost s: System, src: int, size: nat, ghost before: Records)
    returns (stack: int, slot: int)
    requires InState(kh, s) && Possible(s, ECreate(size, before))
    requires SourceInUse(src, size, kh.ram.Count()) && BesideSlot(src, size, Create(kh.v.heap, size).slot)
    requires before == SlotBefore(s.heap, kh.ram.Mem(), Create(s.heap, size).slot)
    modifies kh, kh.dir, kh.ram.mem, kh.ram.count, kh.v.descs
    ensures kh.Valid() && kh.v.heap == Next(s, ECreate(size, before)).heap
    ensures Fits(s, ECreate(size, before)) ==> InState(kh, Next(s, ECreate(size, before)))
    ensures CanTake(s, old(kh.ram.Mem()), Call(ECreate(size, before), kh.ram.Mem()))
    ensures var c := Create(s.heap, size); stack == c.stack && slot == c.slot
  {
    hide KernelHeap.Valid, Held, GoodHeap, MmStruct.Valid, CanCreate, Create, CreatedRecords, SlotBefore, InState,
         Next, KeptButSlot, HasWords, RecordsAt, BesideSlot, SourceInUse, StackClear, HoldsImage, SlotFits, Fits,
         CanTake, Inv, RecordsHeld, Tree, MmStruct.Recorded;
    HeapIs(kh, s);
    ghost var m := kh.ram.Mem();
    var mm;
    mm, stack, slot := CopyProcess.CopyProcess(kh, src, size);
    TreeOf(kh.ram, mm);
    SlotHeld(kh.ram.Mem(), slot, mm);
    CreateChanged(s, size, before, m, kh.ram.Mem());
    if Fits(s, ECreate(size, before)) {
      StateAfter(kh, s, m, ECreate(size, before));
    }
  }

  lemma SlotHeld(m: Memory, slot: int, mm: MmStruct)
    requires mm.Shape() && SlotHolds(m, slot, mm)
    ensures HasWords(slot) && RecordsAt(m, slot) == mm.Raw()
  {
  }

  lemma CreateChanged(s: System, size: nat, before: Records, m: Memory, m': Memory)
    requires Inv(s) && Possible(s, ECreate(size, before))
    requires var c := Create(s.heap, size);
      && before == SlotBefore(s.heap, m, c.slot) && KeptButSlot(m, m', s.heap.count, c.slot) && Tree(m', c.space.nodes)
      && HasWords(c.slot) && RecordsAt(m', c.slot) == CreatedRecords(s.heap, size, before)
    ensures CanTake(s, m, Call(ECreate(size, before), m'))
    ensures Next(s, ECreate(size, before)).heap == Create(s.heap, size).heap
  {
    hide CanCreate, Create, CreatedRecords, SlotBefore, KeptButSlot, Tree, RecordsAt;
  }

  /** delete_process for a zombie, from what its slot holds. */
  method CallDelete(kh: KernelHeap, ghost s: System, pid: nat, stack: int, slot: int)
    requires InState(kh, s) && Possible(s, EDelete(pid))
    requires stack == s.procs[pid].stack && slot == s.procs[pid].slot
    modifies kh`v, kh.ram.count
    ensures InState(kh, Next(s, EDelete(pid))) && CanTake(s, old(kh.ram.Mem()), Call(EDelete(pid), kh.ram.Mem()))
  {
    hide KernelHeap.Repr, Held, GoodHeap, RecordsAt, IsMmSlot, HasWords, OwnDelete, Exist, ReleasedPages, DropRefs,
         InState, Next, Inv, RecordsHeld, CanTake, Possible;
    HeapIs(kh, s);
    ghost var m, e := kh.ram.Mem(), EDelete(pid);
    DeleteFacts(s, m, pid);
    BucketsUsed(kh);
    var mm := ViewSlot(kh.ram, slot);
    var p := new ProcessMemory(stack, mm);
    p.state := TASK_ZOMBIE;
    DeleteProcess(kh.ram, p);
    kh.v := kh.v.(heap := kh.v.heap.(count := kh.ram.Count()));
    OthersWorked(kh);
    StateAfter(kh, s, m, e);
  }

  lemma DeleteFacts(s: System, m: Memory, pid: nat)
    requires Held(s, m) && Possible(s, EDelete(pid))
    ensures pid < |s.procs| && IsRecords(s.procs[pid].records) && |s.heap.count| == PAGING_PAGES
    ensures var q := s.procs[pid];
      && HasWords(q.slot) && RecordsAt(m, q.slot) == q.records && Exist(ReleasedPages(q.records, q.stack))
      && Next(s, EDelete(pid)).heap == s.heap.(count := DropRefs(s.heap.count, ReleasedPages(q.records, q.stack)))
    ensures GoodHeap(Next(s, EDelete(pid)).heap) && CanTake(s, m, Call(EDelete(pid), m))
    ensures Fits(s, EDelete(pid))
  {
    assert RecordHeld(s.heap, s.procs[pid], m);
    hide Holds, GoodHeap, RecordsAt, HasWords, IsMmSlot, DropRefs, ReleasedPages;
    RightRecordsNameOwn(s, pid);
    NextKeeps(s, EDelete(pid));
  }
}
