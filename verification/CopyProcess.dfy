/** copy_process (kernel/task.c) over the heap, the page tables and the slot of the new mm_struct. */
module CopyProcess {
  import opened PhysMem
  import opened PageTable
  import opened Heap
  import opened Kmalloc
  import opened UserMemory
  import opened Process
  import opened RecordArrays
  import opened MmSlot

  /** A page taken by a caller other than the heap. */
  method GetPage(kh: KernelHeap) returns (va: int, ghost p: int)
    requires kh.Valid() && FreePages(kh.ram.Count()) > 0
    modifies kh`v, kh.ram.mem, kh.ram.count
    ensures kh.Valid() && p == HighestFree(old(kh.ram.Count())) && IsPfn(p) && va == PageVa(p)
    ensures old(kh.ram.Count())[p] == 0 && kh.ram.Count() == old(kh.ram.Count())[p := 1]
    ensures kh.v == old(kh.v).(heap := old(kh.v.heap).(count := kh.ram.Count()))
    ensures ZeroPage(kh.ram.Mem(), p)
    ensures UsedPagesKept(old(kh.ram.Mem()), kh.ram.Mem(), old(kh.ram.Count()))
    ensures FreePages(kh.ram.Count()) == old(FreePages(kh.ram.Count())) - 1
  {
    hide Threads, Pointers, Accounted, SparesLinked, ChainLinked, ZeroPage, SamePage, Shape;
    FreePagesPositive(kh.ram.Count());
    va, p := kh.ram.GetFreePage();
    TakePage(old(kh.ram.Count()), p);
    kh.v := kh.v.(heap := kh.v.heap.(count := kh.ram.Count()));
    OthersTookPages(kh);
  }

  /** alloc_user_pages beside the heap. */
  method MapUserPages(kh: KernelHeap, start: int, size: nat, mm: MmStruct, ghost c0: Counts)
    requires kh.Valid() && mm.Valid(kh.ram) && mm.vma != kh.dir as object && mm.pgtblPage != kh.dir as object
    requires 0 <= start && start + PagesFor(size) * PAGE_SIZE <= 0x1_0000_0000_0000
    requires FreePages(kh.ram.Count()) >= 4 * PagesFor(size)
    requires NewPages(mm.space.nodes, c0) && UsedCountsKept(c0, kh.ram.Count())
    requires forall p :: p in kh.v.heap.buckets ==> IsPfn(p) && c0[p] != 0
    modifies kh`v, kh.ram.mem, kh.ram.count, mm`space, mm.pgtblPage, mm.vma
    ensures kh.Valid() && mm.Valid(kh.ram)
    ensures Mapping(mm.space, kh.ram.Count()) == MapPages(old(Mapping(mm.space, kh.ram.Count())), start, PagesFor(size))
    ensures mm.Raw() == RecordPages(old(mm.Raw()), old(Mapping(mm.space, kh.ram.Count())), start, PagesFor(size))
    ensures kh.v == old(kh.v).(heap := old(kh.v.heap).(count := kh.ram.Count()))
    ensures NewPages(mm.space.nodes, c0) && UsedCountsKept(c0, kh.ram.Count())
    ensures UsedPagesKept(old(kh.ram.Mem()), kh.ram.Mem(), c0)
    ensures OnlyTablesChanged(old(kh.ram.Mem()), kh.ram.Mem(), old(mm.space.nodes), old(kh.ram.Count()))
    ensures FreshLeaves(kh.ram.Mem(), old(mm.space.nodes), mm.space.nodes, start, PagesFor(size))
    ensures FreePages(kh.ram.Count()) >= old(FreePages(kh.ram.Count())) - 4 * PagesFor(size)
  {
    ghost var g := Mapping(mm.space, kh.ram.Count());
    AllocUserPages(kh.ram, start, size, mm);
    MapPagesExtends(g, start, PagesFor(size));
    kh.v := kh.v.(heap := kh.v.heap.(count := kh.ram.Count()));
    OthersTookPages(kh);
  }

  /** The page of the user stack is there and clear. */
  ghost predicate StackClear(m: Memory, nodes: map<Key, int>) {
    STACK_KEY in nodes && IsPfn(nodes[STACK_KEY]) && ZeroPage(m, nodes[STACK_KEY])
  }

  /** The tree and records of a new process with `n` image pages, from counts `c` and arrays `r`. */
  ghost predicate Built(g: Mapping, r': Records, c: Counts, r: Records, n: nat)
    requires |r.tables| == TABLE_WORDS
  {
    var root := HighestFree(c);
    IsPfn(root) && g == WithImage(root, c[root := 1], n) && r' == RecordImage(r, root, c[root := 1], n)
  }

  /** The top-level table of a new process. */
  method NewTable(kh: KernelHeap, mm: MmStruct)
    requires kh.Valid() && mm.Shape() && mm.vma as object != mm.pgtblPage && FreePages(kh.ram.Count()) > 0
    requires {kh.ram.mem as object, kh.ram.count} !! {mm.vma as object, mm.pgtblPage, mm}
    modifies kh`v, kh.ram.mem, kh.ram.count, mm`pgd, mm`space
    ensures kh.Valid() && mm.Valid(kh.ram)
    ensures var root := HighestFree(old(kh.ram.Count()));
      && IsPfn(root) && mm.space == NewSpace(root)
      && kh.ram.Count() == old(kh.ram.Count())[root := 1]
    ensures kh.v == old(kh.v).(heap := old(kh.v.heap).(count := kh.ram.Count()))
    ensures NewPages(mm.space.nodes, old(kh.ram.Count())) && UsedCountsKept(old(kh.ram.Count()), kh.ram.Count())
    ensures UsedPagesKept(old(kh.ram.Mem()), kh.ram.Mem(), old(kh.ram.Count()))
    ensures FreePages(kh.ram.Count()) == old(FreePages(kh.ram.Count())) - 1
  {
    hide KernelHeap.Repr, GoodHeap;
    var va, root := GetPage(kh);
    mm.pgd := Pa(va);
    mm.space := NewSpace(root);
    EmptyTree(kh.ram.Mem(), root);
  }

  /** The user stack of a new process. */
  method MapStack(kh: KernelHeap, mm: MmStruct, ghost root: int, ghost c0: Counts)
    requires kh.Valid() && mm.Valid(kh.ram) && mm.vma != kh.dir as object && mm.pgtblPage != kh.dir as object
    requires mm.space == NewSpace(root) && FreePages(kh.ram.Count()) >= 4
    requires NewPages(mm.space.nodes, c0) && UsedCountsKept(c0, kh.ram.Count())
    requires forall p :: p in kh.v.heap.buckets ==> IsPfn(p) && c0[p] != 0
    modifies kh`v, kh.ram.mem, kh.ram.count, mm`space, mm.pgtblPage, mm.vma
    ensures kh.Valid() && mm.Valid(kh.ram)
    ensures Mapping(mm.space, kh.ram.Count()) == WithStack(root, old(kh.ram.Count()))
    ensures mm.Raw() == RecordPages(old(mm.Raw()), Mapping(NewSpace(root), old(kh.ram.Count())), USER_MAX - 4096, 1)
    ensures kh.v == old(kh.v).(heap := old(kh.v.heap).(count := kh.ram.Count()))
    ensures NewPages(mm.space.nodes, c0) && UsedCountsKept(c0, kh.ram.Count())
    ensures UsedPagesKept(old(kh.ram.Mem()), kh.ram.Mem(), c0)
    ensures StackClear(kh.ram.Mem(), mm.space.nodes)
    ensures FreePages(kh.ram.Count()) >= old(FreePages(kh.ram.Count())) - 4
  {
    hide KernelHeap.Valid, GoodHeap, UsedPagesKept, UsedCountsKept, NewPages, FreshLeaves, MapPages, RecordPages,
         FreePages, OnlyTablesChanged, StackClear, PagesFor, MmStruct.Valid, Allocated, Tree;
    TreeOf(kh.ram, mm);
    OnePage();
    ghost var nodes := mm.space.nodes;
    MapUserPages(kh, USER_MAX - 4096, 4096, mm, c0);
    StackIsFresh(kh.ram.Mem(), nodes, mm.space.nodes);
  }

  /** The stack and the image of a new process get their pages. */
  method MapProcess(kh: KernelHeap, size: nat, mm: MmStruct, ghost root: int, ghost c0: Counts)
    requires kh.Valid() && mm.Valid(kh.ram) && mm.vma != kh.dir as object && mm.pgtblPage != kh.dir as object
    requires mm.space == NewSpace(root) && FreePages(kh.ram.Count()) >= 4 + 4 * PagesFor(size)
    requires NewPages(mm.space.nodes, c0) && UsedCountsKept(c0, kh.ram.Count())
    requires forall p :: p in kh.v.heap.buckets ==> IsPfn(p) && c0[p] != 0
    modifies kh`v, kh.ram.mem, kh.ram.count, mm`space, mm.pgtblPage, mm.vma
    ensures kh.Valid() && mm.Valid(kh.ram)
    ensures Mapping(mm.space, kh.ram.Count()) == WithImage(root, old(kh.ram.Count()), PagesFor(size))
    ensures mm.Raw() == RecordImage(old(mm.Raw()), root, old(kh.ram.Count()), PagesFor(size))
    ensures kh.v == old(kh.v).(heap := old(kh.v.heap).(count := kh.ram.Count()))
    ensures NewPages(mm.space.nodes, c0) && UsedCountsKept(c0, kh.ram.Count())
    ensures UsedPagesKept(old(kh.ram.Mem()), kh.ram.Mem(), c0)
    ensures StackClear(kh.ram.Mem(), mm.space.nodes)
    ensures MappedUpTo(mm.space.nodes, size)
  {
    AtMostAll(kh.ram.Count());
    hide KernelHeap.Valid, GoodHeap, UsedPagesKept, UsedCountsKept, NewPages, FreshLeaves, MapPages, RecordPages,
         FreePages, OnlyTablesChanged, ZeroPage, Extends, PagesFor, MmStruct.Valid, Allocated;
    ghost var m := kh.ram.Mem();
    MapStack(kh, mm, root, c0);
    ghost var g1, m1 := Mapping(mm.space, kh.ram.Count()), kh.ram.Mem();
    TreeOf(kh.ram, mm);
    MapUserPages(kh, 0, size, mm, c0);
    ghost var g2, m2 := Mapping(mm.space, kh.ram.Count()), kh.ram.Mem();
    TreeOf(kh.ram, mm);
    MapPagesExtends(g1, 0, PagesFor(size));
    LeafKept(m1, m2, g1, g2, STACK_KEY);
    ImagePagesMapped(m2, g1.space.nodes, g2.space.nodes, size);
    KeptOn(m, m1, m2, c0, c0);
  }

  lemma OnePage()
    ensures PagesFor(4096) == 1
  {
  }

  lemma TreeOf(ram: Ram, mm: MmStruct)
    requires mm.Valid(ram)
    ensures mm.Shape()
    ensures ram.Valid() && Tree(ram.Mem(), mm.space.nodes) && Allocated(mm.space.nodes, ram.Count())
    ensures Key(0, 0) in mm.space.nodes && mm.pgd == PfnToPa(mm.space.nodes[Key(0, 0)])
  {
  }

  lemma StackIsFresh(m: Memory, before: map<Key, int>, nodes: map<Key, int>)
    requires FreshLeaves(m, before, nodes, USER_MAX - 4096, 1) && before.Keys == {Key(0, 0)}
    ensures StackClear(m, nodes)
  {
    assert LeafKey(USER_MAX - 4096, 0) == STACK_KEY;
  }

  lemma ImagePagesMapped(m: Memory, before: map<Key, int>, nodes: map<Key, int>, size: nat)
    requires FreshLeaves(m, before, nodes, 0, PagesFor(size)) && PagesFor(size) <= 959
    ensures MappedUpTo(nodes, size)
  {
    forall k | 0 <= k < size
      ensures KeyOf(PageNo(k), 4) in nodes
    {
      var i := k / 4096;
      LeafNumber(0, i);
      assert KeyOf(PageNo(k), 4) == LeafKey(0, i);
    }
  }

  /** The image goes to the new process's own pages, beside the heap and everything else in use. */
  method FillImage(kh: KernelHeap, src: int, size: nat, mm: MmStruct, ghost c0: Counts)
    requires kh.Valid() && mm.Valid(kh.ram) && MappedUpTo(mm.space.nodes, size)
    requires NewPages(mm.space.nodes, c0) && SourceInUse(src, size, c0)
    requires forall p :: p in kh.v.heap.buckets ==> IsPfn(p) && c0[p] != 0
    modifies kh`v, kh.ram.mem
    ensures kh.Valid() && mm.Valid(kh.ram) && kh.v == old(kh.v)
    ensures HoldsImage(kh.ram.Mem(), mm.space.nodes, RamBytes(old(kh.ram.Mem()), src, size))
    ensures OnlyImageChanged(old(kh.ram.Mem()), kh.ram.Mem(), mm.space.nodes, size)
    ensures UsedPagesKept(old(kh.ram.Mem()), kh.ram.Mem(), c0)
  {
    LoadImage(kh.ram, mm.pgd, src, size, mm.space.nodes);
    OthersTookPages(kh);
  }

  lemma BucketsUsed(kh: KernelHeap)
    requires kh.Valid()
    ensures kh.ram.Valid() && kh.v.heap.count == kh.ram.Count() && GoodHeap(kh.v.heap)
    ensures forall p :: p in kh.v.heap.buckets ==> IsPfn(p) && kh.ram.Count()[p] != 0
  {
    assert forall p :: p in kh.v.heap.buckets ==> GoodBucket(p, kh.v.heap.buckets[p]);
  }

  lemma HeapCounts(kh: KernelHeap)
    requires kh.Valid()
    ensures kh.ram.Valid() && kh.v.heap.count == kh.ram.Count()
  {
  }

  /** The image stops short of the stack. */
  lemma StackStaysClear(m: Memory, m': Memory, nodes: map<Key, int>, size: nat)
    requires Injective(nodes) && StackClear(m, nodes)
    requires OnlyImageChanged(m, m', nodes, size) && size < USER_MAX - 4096
    ensures StackClear(m', nodes)
  {
    forall k | 0 <= k < size
      ensures KeyOf(PageNo(k), 4) != STACK_KEY
    {
    }
    assert !IsImagePage(nodes, size, nodes[STACK_KEY]);
    assert SamePage(m, m', nodes[STACK_KEY]);
  }

  lemma SourceUsedOn(m: Memory, m': Memory, c: Counts, c': Counts, src: int, size: nat)
    requires UsedCountsKept(c, c') && SourceInUse(src, size, c) && UsedPagesKept(m, m', c)
    ensures SourceInUse(src, size, c') && RamBytes(m', src, size) == RamBytes(m, src, size)
  {
    SourceKept(m, m', c, src, size);
  }

  /** The tables, stack and image pages of a new process, all on pages nobody used. */
  method PrepareSpace(kh: KernelHeap, size: nat, mm: MmStruct)
    requires kh.Valid() && mm.Shape() && mm.vma as object != mm.pgtblPage
    requires FreePages(kh.ram.Count()) >= 5 + 4 * PagesFor(size)
    requires {kh.ram.mem as object, kh.ram.count, kh.dir} !! {mm.vma as object, mm.pgtblPage, mm}
    modifies kh`v, kh.ram.mem, kh.ram.count, mm, mm.vma, mm.pgtblPage
    ensures kh.Valid() && mm.Valid(kh.ram)
    ensures kh.v == old(kh.v).(heap := old(kh.v.heap).(count := kh.ram.Count()))
    ensures Built(Mapping(mm.space, kh.ram.Count()), mm.Raw(), old(kh.ram.Count()), old(mm.Raw()), PagesFor(size))
    ensures NewPages(mm.space.nodes, old(kh.ram.Count()))
    ensures StackClear(kh.ram.Mem(), mm.space.nodes)
    ensures MappedUpTo(mm.space.nodes, size)
    ensures UsedPagesKept(old(kh.ram.Mem()), kh.ram.Mem(), old(kh.ram.Count()))
  {
    BucketsUsed(kh);
    hide KernelHeap.Valid, GoodHeap, UsedPagesKept, UsedCountsKept, MmStruct.Valid, NewPages, WithImage, ZeroPage,
         FreePages, HighestFree, PagesFor, MappedUpTo, RecordImage;
    ghost var m, c := kh.ram.Mem(), kh.ram.Count();
    NewTable(kh, mm);
    ghost var m1 := kh.ram.Mem();
    MapProcess(kh, size, mm, HighestFree(c), c);
    KeptOn(m, m1, kh.ram.Mem(), c, c);
  }

  // ---------------------------------------------------------------- the mm_struct in its slot

  /** The slot is an object of the heap with room for an mm_struct. */
  ghost predicate IsMmSlot(h: Heap, slot: int) {
    IsLive(h, slot) && SizeAt(h, slot) >= 8 * MM_WORDS
  }

  /** Words of used pages are kept, but for those of the slot. */
  ghost predicate KeptButSlot(m: Memory, m': Memory, c: Counts, slot: int) {
    forall q, i :: IsPfn(q) && c[q] != 0 && 0 <= i < WORDS && !InSlot(slot, q * WORDS + i) ==>
      Entry(m', q, i) == Entry(m, q, i)
  }
  ghost predicate InSlot(slot: int, w: int) {
    WordIndex(slot) <= w < WordIndex(slot) + MM_WORDS
  }

  /** No byte of the source is in the slot. */
  ghost predicate BesideSlot(src: int, size: nat, slot: int) {
    size == 0 || src + size <= slot || slot + 8 * MM_WORDS <= src
  }

  lemma SlotInHeap(h: Heap, slot: int)
    requires GoodHeap(h) && IsMmSlot(h, slot)
    ensures HasWords(slot) && IsPfn(PageOf(slot)) && h.count[PageOf(slot)] == 1
    ensures forall w :: InSlot(slot, w) ==>
      InObject(h, slot, w) && PageOf(slot) * WORDS <= w < (PageOf(slot) + 1) * WORDS
  {
    var p := PageOf(slot);
    assert GoodBucket(p, h.buckets[p]);
    SlotWord(p, h.buckets[p].cls, slot);
    SlotsApart(p, h.buckets[p].cls, slot, slot);
  }

  lemma SlotWritten(m: Memory, m': Memory, h: Heap, slot: int)
    requires GoodHeap(h) && IsMmSlot(h, slot) && OnlySlot(m, m', slot)
    ensures OnlyObject(m, m', h, slot)
    ensures forall q :: IsPfn(q) && q != PageOf(slot) ==> SamePage(m, m', q)
  {
    SlotInHeap(h, slot);
    forall q, i | IsPfn(q) && q != PageOf(slot) && 0 <= i < WORDS
      ensures Entry(m', q, i) == Entry(m, q, i)
    {
      assert !InSlot(slot, q * WORDS + i);
    }
  }

  lemma SourceBeside(m: Memory, m': Memory, slot: int, c: Counts, src: int, size: nat)
    requires HasWords(slot) && OnlySlot(m, m', slot) && BesideSlot(src, size, slot) && SourceInUse(src, size, c)
    ensures RamBytes(m', src, size) == RamBytes(m, src, size)
  {
    forall k | 0 <= k < size
      ensures RamBytes(m', src, size)[k] == RamBytes(m, src, size)[k]
    {
      ByteBeside(m, m', slot, src + k);
    }
  }

  lemma ByteBeside(m: Memory, m': Memory, slot: int, a: int)
    requires HasWords(slot) && OnlySlot(m, m', slot) && InRamByte(a) && (a < slot || slot + 8 * MM_WORDS <= a)
    ensures ReadByte(m', a) == ReadByte(m, a)
  {
    var w := WordIndex(a);
    assert 0 <= w < PAGING_PAGES * WORDS && !InSlot(slot, w);
    assert m'[w] == m[w];
  }

  /** The fields go to the slot, beside the heap and the new tree. */
  method PutFields(kh: KernelHeap, slot: int, mm: MmStruct, ghost c0: Counts)
    requires kh.Valid() && mm.Valid(kh.ram) && IsMmSlot(kh.v.heap, slot) && InWords(mm.Raw())
    requires NewPages(mm.space.nodes, c0) && IsPfn(PageOf(slot)) && c0[PageOf(slot)] != 0
    modifies kh.ram.mem
    ensures kh.Valid() && mm.Valid(kh.ram) && HasWords(slot)
    ensures SlotHolds(kh.ram.Mem(), slot, mm) && OnlySlot(old(kh.ram.Mem()), kh.ram.Mem(), slot)
  {
    SameKeys(kh);
    ghost var m := kh.ram.Mem();
    SlotInHeap(kh.v.heap, slot);
    hide RecordsAt, OnlyObject, SamePage;
    StoreFields(kh.ram, slot, mm);
    SlotWritten(m, kh.ram.Mem(), kh.v.heap, slot);
    TreeKept(m, kh.ram.Mem(), mm.space.nodes);
    hide OnlySlot, SlotHolds;
    ObjectWritten(kh, slot);
  }

  lemma CountsApart(kh: KernelHeap, h: Heap, slot: int)
    requires IsMmSlot(h, slot) && kh.v.heap == h.(count := kh.v.heap.count)
    ensures IsMmSlot(kh.v.heap, slot)
  {
  }

  lemma StackBeside(m: Memory, m': Memory, h: Heap, slot: int, nodes: map<Key, int>, c: Counts)
    requires GoodHeap(h) && h.count == c && IsMmSlot(h, slot) && OnlySlot(m, m', slot) && NewPages(nodes, c)
    requires StackClear(m, nodes)
    ensures StackClear(m', nodes)
  {
    SlotInHeap(h, slot);
    SlotWritten(m, m', h, slot);
    assert SamePage(m, m', nodes[STACK_KEY]);
  }

  lemma BuiltInWords(g: Mapping, r': Records, c: Counts, r: Records, n: nat)
    requires |r.tables| == TABLE_WORDS && Built(g, r', c, r, n) && InWords(r) && n <= 959
    ensures InWords(r')
  {
    RecordImageInWords(r, HighestFree(c), c[HighestFree(c) := 1], n);
  }

  /** What the steps of copy_process after kmalloc change on used pages. */
  lemma KeptSteps(m: Memory, m1: Memory, m2: Memory, m3: Memory, c: Counts, slot: int)
    requires UsedPagesKept(m, m1, c) && OnlySlot(m1, m2, slot) && UsedPagesKept(m2, m3, c)
    ensures KeptButSlot(m, m3, c, slot)
  {
    forall q, i | IsPfn(q) && c[q] != 0 && 0 <= i < WORDS && !InSlot(slot, q * WORDS + i)
      ensures Entry(m3, q, i) == Entry(m, q, i)
    {
      assert SamePage(m, m1, q) && SamePage(m2, m3, q);
    }
  }

  /** The slot stays as written while other pages change. */
  lemma WordsStay(m: Memory, m': Memory, c: Counts, slot: int)
    requires HasWords(slot) && IsPfn(PageOf(slot)) && c[PageOf(slot)] != 0 && UsedPagesKept(m, m', c)
    requires forall w :: InSlot(slot, w) ==> PageOf(slot) * WORDS <= w < (PageOf(slot) + 1) * WORDS
    ensures forall i :: 0 <= i < MM_WORDS ==> MmWord(m', slot, i) == MmWord(m, slot, i)
    ensures RecordsAt(m', slot) == RecordsAt(m, slot)
  {
    var p := PageOf(slot);
    assert SamePage(m, m', p);
    forall i | 0 <= i < MM_WORDS
      ensures MmWord(m', slot, i) == MmWord(m, slot, i)
    {
      var w := WordIndex(slot) + i;
      assert InSlot(slot, w);
      assert Entry(m', p, w - p * WORDS) == Entry(m, p, w - p * WORDS);
    }
    assert RecordsAt(m', slot).vma == RecordsAt(m, slot).vma;
  }

  lemma SlotStays(m: Memory, m': Memory, c: Counts, slot: int, mm: MmStruct)
    requires HasWords(slot) && IsPfn(PageOf(slot)) && c[PageOf(slot)] != 0 && UsedPagesKept(m, m', c)
    requires forall w :: InSlot(slot, w) ==> PageOf(slot) * WORDS <= w < (PageOf(slot) + 1) * WORDS
    requires mm.Shape() && SlotHolds(m, slot, mm)
    ensures SlotHolds(m', slot, mm)
  {
    WordsStay(m, m', c, slot);
  }

  lemma SizeFits(c: Counts, size: nat)
    requires FreePages(c) >= 5 + 4 * PagesFor(size)
    ensures PagesFor(size) <= 959 && size < USER_MAX - 4096
  {
    AtMostAll(c);
  }

  // ---------------------------------------------------------------- copy_process

  /** The tables and pages of a new process, with its mm_struct in the slot. */
  method PrepareInSlot(kh: KernelHeap, size: nat, slot: int, mm: MmStruct) returns (ghost m1: Memory)
    requires kh.Valid() && mm.Shape() && mm.vma as object != mm.pgtblPage
    requires FreePages(kh.ram.Count()) >= 5 + 4 * PagesFor(size) && PagesFor(size) <= 959
    requires {kh.ram.mem as object, kh.ram.count, kh.dir} !! {mm.vma as object, mm.pgtblPage, mm}
    requires IsMmSlot(kh.v.heap, slot) && InWords(mm.Raw())
    modifies kh`v, kh.ram.mem, kh.ram.count, mm, mm.vma, mm.pgtblPage
    ensures kh.Valid() && mm.Valid(kh.ram)
    ensures kh.v == old(kh.v).(heap := old(kh.v.heap).(count := kh.ram.Count()))
    ensures Built(Mapping(mm.space, kh.ram.Count()), mm.Raw(), old(kh.ram.Count()), old(mm.Raw()), PagesFor(size))
    ensures NewPages(mm.space.nodes, old(kh.ram.Count()))
    ensures StackClear(kh.ram.Mem(), mm.space.nodes)
    ensures MappedUpTo(mm.space.nodes, size) && HasWords(slot) && SlotHolds(kh.ram.Mem(), slot, mm)
    ensures UsedPagesKept(old(kh.ram.Mem()), m1, old(kh.ram.Count())) && OnlySlot(m1, kh.ram.Mem(), slot)
  {
    hide KernelHeap.Valid, GoodHeap, UsedPagesKept, MmStruct.Valid, NewPages, IsMmSlot, OnlySlot, Built, StackClear,
         FreePages, PagesFor, MappedUpTo, SlotHolds, InWords, InSlot, HasWords, IsLive;
    SameKeys(kh);
    SlotInHeap(kh.v.heap, slot);
    ghost var c, h, r := kh.ram.Count(), kh.v.heap, mm.Raw();
    PrepareSpace(kh, size, mm);
    m1 := kh.ram.Mem();
    BuiltInWords(Mapping(mm.space, kh.ram.Count()), mm.Raw(), c, r, PagesFor(size));
    CountsApart(kh, h, slot);
    PutFields(kh, slot, mm, c);
    StackBeside(m1, kh.ram.Mem(), h, slot, mm.space.nodes, c);
  }

  /** The address space of a new process: its top-level table, stack and image. */
  method BuildSpace(kh: KernelHeap, src: int, size: nat, slot: int, mm: MmStruct)
    requires kh.Valid() && mm.Shape() && mm.vma as object != mm.pgtblPage
    requires FreePages(kh.ram.Count()) >= 5 + 4 * PagesFor(size)
    requires {kh.ram.mem as object, kh.ram.count, kh.dir} !! {mm.vma as object, mm.pgtblPage, mm}
    requires SourceInUse(src, size, kh.ram.Count()) && BesideSlot(src, size, slot)
    requires IsMmSlot(kh.v.heap, slot) && InWords(mm.Raw())
    modifies kh`v, kh.ram.mem, kh.ram.count, mm, mm.vma, mm.pgtblPage
    ensures kh.Valid() && mm.Valid(kh.ram)
    ensures kh.v == old(kh.v).(heap := old(kh.v.heap).(count := kh.ram.Count()))
    ensures Built(Mapping(mm.space, kh.ram.Count()), mm.Raw(), old(kh.ram.Count()), old(mm.Raw()), PagesFor(size))
    ensures HoldsImage(kh.ram.Mem(), mm.space.nodes, RamBytes(old(kh.ram.Mem()), src, size))
    ensures StackClear(kh.ram.Mem(), mm.space.nodes)
    ensures SlotHolds(kh.ram.Mem(), slot, mm)
    ensures KeptButSlot(old(kh.ram.Mem()), kh.ram.Mem(), old(kh.ram.Count()), slot)
  {
    hide KernelHeap.Valid, GoodHeap, UsedPagesKept, MmStruct.Valid, NewPages, SourceInUse, IsMmSlot, OnlySlot,
         IsLive, Built, OnlyImageChanged, HoldsImage, StackClear, FreePages, PagesFor, RamBytes, MappedUpTo,
         SlotHolds, KeptButSlot, BesideSlot, InWords, HasWords, InSlot;
    SameKeys(kh);
    SizeFits(kh.ram.Count(), size);
    SlotInHeap(kh.v.heap, slot);
    BucketsUsed(kh);
    ghost var m, c := kh.ram.Mem(), kh.ram.Count();
    ghost var m1 := PrepareInSlot(kh, size, slot, mm);
    ghost var m2 := kh.ram.Mem();
    SourceUsedOn(m, m1, c, c, src, size);
    SourceBeside(m1, m2, slot, c, src, size);
    FillImage(kh, src, size, mm, c);
    TreeOf(kh.ram, mm);
    StackStaysClear(m2, kh.ram.Mem(), mm.space.nodes, size);
    SlotStays(m2, kh.ram.Mem(), c, slot, mm);
    KeptSteps(m, m1, m2, kh.ram.Mem(), c, slot);
  }

  /** An mm_struct without records. */
  function NoRecords(): (r: Records) {
    Records(seq(MAX_USER_PAGES, _ => Vma(0, 0)), seq(TABLE_WORDS, _ => 0))
  }

  /** What copy_process finds in the slot: whatever the bucket page held there, or nothing if the page is new. */
  ghost function SlotBefore(h: Heap, m: Memory, slot: int): (r: Records)
    ensures |r.vma| == MAX_USER_PAGES && |r.tables| == TABLE_WORDS
  {
    if PageOf(slot) in h.buckets && HasWords(slot) then RecordsAt(m, slot) else NoRecords()
  }

  lemma ClearSlot(m: Memory, h: Heap, slot: int)
    requires GoodHeap(h) && IsMmSlot(h, slot) && ObjectClear(m, h, slot)
    ensures HasWords(slot) && RecordsAt(m, slot) == NoRecords()
  {
    SlotInHeap(h, slot);
    forall i | 1 <= i < MM_WORDS
      ensures MmWord(m, slot, i) == 0
    {
      assert InSlot(slot, WordIndex(slot) + i);
    }
    assert RecordsAt(m, slot).vma == NoRecords().vma;
  }

  lemma MallocSlot(h: Heap)
    requires CanMalloc(h, MM_STRUCT_SIZE)
    ensures var (h', slot) := Malloc(h, MM_STRUCT_SIZE); GoodHeap(h') && IsMmSlot(h', slot)
  {
    var slot := Malloc(h, MM_STRUCT_SIZE).1;
    MallocKeeps(h, MM_STRUCT_SIZE, slot);
    var h' := Malloc(h, MM_STRUCT_SIZE).0;
    assert SizeAt(h', slot) in [16, 32, 64, 128, 256, 512, 1024, 2048, 4096];
  }

  /** Room for the mm_struct. */
  method TakeSlot(kh: KernelHeap) returns (slot: int)
    requires kh.Valid() && CanMalloc(kh.v.heap, MM_STRUCT_SIZE)
    modifies kh, kh.dir, kh.ram.mem, kh.ram.count, kh.v.descs
    ensures kh.Valid() && (kh.v.heap, slot) == Malloc(old(kh.v.heap), MM_STRUCT_SIZE)
    ensures UsedPagesKept(old(kh.ram.Mem()), kh.ram.Mem(), old(kh.ram.Count()))
    ensures IsMmSlot(kh.v.heap, slot) && HasWords(slot)
    ensures RecordsAt(kh.ram.Mem(), slot) == SlotBefore(old(kh.v.heap), old(kh.ram.Mem()), slot)
  {
    hide KernelHeap.Valid, GoodHeap, CanMalloc, Malloc, UsedPagesKept, IsMmSlot, HasWords, RecordsAt, ObjectClear,
         IsLive;
    SameKeys(kh);
    MallocSlot(kh.v.heap);
    ghost var h, m, c := kh.v.heap, kh.ram.Mem(), kh.ram.Count();
    BucketsUsed(kh);
    slot := kh.Kmalloc(MM_STRUCT_SIZE);
    SameKeys(kh);
    SlotInHeap(kh.v.heap, slot);
    if PageOf(slot) in h.buckets {
      WordsStay(m, kh.ram.Mem(), c, slot);
    } else {
      ClearSlot(kh.ram.Mem(), kh.v.heap, slot);
    }
  }

  /** The first pages of copy_process: the stack, and room for the mm_struct. */
  method TakeStackAndSlot(kh: KernelHeap, size: nat) returns (stack: int, slot: int)
    requires kh.Valid() && CanCreate(kh.v.heap, size)
    modifies kh, kh.dir, kh.ram.mem, kh.ram.count, kh.v.descs
    ensures kh.Valid() && stack == HighestFree(old(kh.v.heap.count))
    ensures CanMalloc(HeapWithStack(old(kh.v.heap)), MM_STRUCT_SIZE)
    ensures (kh.v.heap, slot) == Malloc(HeapWithStack(old(kh.v.heap)), MM_STRUCT_SIZE)
    ensures UsedPagesKept(old(kh.ram.Mem()), kh.ram.Mem(), old(kh.ram.Count()))
    ensures UsedCountsKept(old(kh.ram.Count()), kh.ram.Count())
    ensures FreePages(kh.ram.Count()) >= 5 + 4 * PagesFor(size)
    ensures IsMmSlot(kh.v.heap, slot) && HasWords(slot)
    ensures RecordsAt(kh.ram.Mem(), slot) == SlotBefore(old(kh.v.heap), old(kh.ram.Mem()), slot)
  {
    hide KernelHeap.Repr, GoodHeap, CanMalloc, Malloc, UsedPagesKept, IsMmSlot, HasWords, RecordsAt, IsLive;
    StackTaken(kh.v.heap, size);
    BucketsUsed(kh);
    ghost var h, m, c := kh.v.heap, kh.ram.Mem(), kh.ram.Count();
    var va, s := GetPage(kh);
    PageVaPfn(s);
    stack := PaToPfn(Pa(va));
    BucketsUsed(kh);
    ghost var h1, m1, c1 := kh.v.heap, kh.ram.Mem(), kh.ram.Count();
    slot := TakeSlot(kh);
    SlotBeforeKept(h, m, h1, m1, kh.v.heap, slot);
    BucketsUsed(kh);
    KeptOn(m, m1, kh.ram.Mem(), c, c1);
  }

  /** Taking the stack page changes no slot of a bucket page. */
  lemma SlotBeforeKept(h: Heap, m: Memory, h1: Heap, m1: Memory, h2: Heap, slot: int)
    requires GoodHeap(h) && h1.buckets == h.buckets && UsedPagesKept(m, m1, h.count)
    requires GoodHeap(h2) && IsMmSlot(h2, slot)
    ensures SlotBefore(h1, m1, slot) == SlotBefore(h, m, slot)
  {
    SlotInHeap(h2, slot);
    if PageOf(slot) in h.buckets {
      assert GoodBucket(PageOf(slot), h.buckets[PageOf(slot)]);
      WordsStay(m, m1, h.count, slot);
    }
  }

  lemma CreateIs(h: Heap, size: nat, h2: Heap, slot: int, c': Counts, space: Space, r': Records, r: Records)
    requires CanCreate(h, size) && CanMalloc(HeapWithStack(h), MM_STRUCT_SIZE) && IsRecords(r)
    requires (h2, slot) == Malloc(HeapWithStack(h), MM_STRUCT_SIZE) && |h2.count| == PAGING_PAGES
    requires FreePages(h2.count) >= 5 + 4 * PagesFor(size)
    requires Built(Mapping(space, c'), r', h2.count, r, PagesFor(size))
    ensures Created(h2.(count := c'), slot, HighestFree(h.count), space) == Create(h, size)
    ensures r' == CreatedRecords(h, size, r) && (Holds(r', space) <==> SlotFits(r, space))
  {
    StackTaken(h, size);
    CreatedRightIff(h, size, r);
  }

  /** copy_process, but for the register frame and the task list: the image is the `size` bytes at `src`. The
      tree is right whatever the slot held; the records are if, and only if, what it held fits. */
  method CopyProcess(kh: KernelHeap, src: int, size: nat) returns (mm: MmStruct, stack: int, slot: int)
    requires kh.Valid() && CanCreate(kh.v.heap, size)
    requires SourceInUse(src, size, kh.ram.Count()) && BesideSlot(src, size, Create(kh.v.heap, size).slot)
    modifies kh, kh.dir, kh.ram.mem, kh.ram.count, kh.v.descs
    ensures kh.Valid() && fresh(mm) && mm.Valid(kh.ram)
    ensures Created(kh.v.heap, slot, stack, mm.space) == Create(old(kh.v.heap), size)
    ensures HoldsImage(kh.ram.Mem(), mm.space.nodes, RamBytes(old(kh.ram.Mem()), src, size))
    ensures StackClear(kh.ram.Mem(), mm.space.nodes)
    ensures ImageMapped(kh.ram.Mem(), mm.pgd, size)
    ensures SlotHolds(kh.ram.Mem(), slot, mm)
    ensures mm.Raw() == CreatedRecords(old(kh.v.heap), size, SlotBefore(old(kh.v.heap), old(kh.ram.Mem()), slot))
    ensures mm.Recorded() <==> SlotFits(SlotBefore(old(kh.v.heap), old(kh.ram.Mem()), slot), mm.space)
    ensures KeptButSlot(old(kh.ram.Mem()), kh.ram.Mem(), old(kh.ram.Count()), slot)
  {
    hide KernelHeap.Valid, GoodHeap, CanMalloc, Malloc, UsedPagesKept, UsedCountsKept, MmStruct.Valid, SourceInUse,
         WithImage, HoldsImage, StackClear, FreePages, HighestFree, PagesFor, RamBytes, Create, HeapWithStack,
         CanCreate, Tree, Built, IsMmSlot, HasWords, RecordsAt, SlotHolds, SlotFits, SlotBefore, KeptButSlot,
         BesideSlot, Holds, CreatedRecords, ImageMapped;
    HeapCounts(kh);
    ghost var h, m, c := kh.v.heap, kh.ram.Mem(), kh.ram.Count();
    stack, slot := TakeStackAndSlot(kh, size);
    ghost var h1, m1, c1 := kh.v.heap, kh.ram.Mem(), kh.ram.Count();
    HeapCounts(kh);
    SourceUsedOn(m, m1, c, c1, src, size);
    mm := ViewSlot(kh.ram, slot);
    ghost var r := mm.Raw();
    WordsInRam(m1, slot);
    CreatedSlot(h, size);
    BuildSpace(kh, src, size, slot, mm);
    KeptSince(m, m1, kh.ram.Mem(), c, c1, slot);
    CreateIs(h, size, h1, slot, kh.ram.Count(), mm.space, mm.Raw(), r);
    TreeOf(kh.ram, mm);
    ImageIsMapped(kh.ram.Mem(), Mapping(mm.space, kh.ram.Count()), mm.Raw(), c1, r, size);
  }

  /** The pages a process can access: the last one below USER_MAX, and those that hold a byte of the image. */
  ghost predicate ImageMapped(m: Memory, root: int, size: nat) {
    forall va :: Translate(m, root, va).Phys? <==> va / PAGE_SIZE == 0x3_ffff || HoldsByte(0, size, va)
  }

  lemma ImageIsMapped(m: Memory, g: Mapping, r': Records, c: Counts, r: Records, size: nat)
    requires |r.tables| == TABLE_WORDS && FreePages(c) >= 5 + 4 * PagesFor(size)
    requires Built(g, r', c, r, PagesFor(size)) && Tree(m, g.space.nodes)
    ensures ImageMapped(m, PfnToPa(g.space.nodes[Key(0, 0)]), size)
  {
    var root := PfnToPa(g.space.nodes[Key(0, 0)]);
    hide Tree, Translate, PagesFor, HoldsByte, FreePages, WithImage, RecordImage;
    SizeFits(c, size);
    forall va
      ensures Translate(m, root, va).Phys? <==> va / PAGE_SIZE == 0x3_ffff || HoldsByte(0, size, va)
    {
      if 0 <= va < 0x1_0000_0000_0000 {
        TreeTranslates(m, g.space.nodes, va);
        TakePage(c, HighestFree(c));
        ImageLeaves(HighestFree(c), c[HighestFree(c) := 1], PagesFor(size), va);
        RangeHoldsBytes(0, size, va);
      } else {
        OutsideFaults(m, root, size, va);
      }
    }
  }

  lemma OutsideFaults(m: Memory, root: int, size: nat, va: int)
    requires !(0 <= va < 0x1_0000_0000_0000) && size < USER_MAX
    ensures Translate(m, root, va).Fault? && va / PAGE_SIZE != 0x3_ffff && !HoldsByte(0, size, va)
  {
  }

  /** The user pages of a new process. */
  lemma ImageLeaves(root: int, c: Counts, n: nat, va: int)
    requires FreePages(c) >= 4 + 4 * n && n <= 959 && 0 <= va < 0x1_0000_0000_0000
    ensures KeyOf(PageNo(va), 4) in WithImage(root, c, n).space.nodes
      <==> va / PAGE_SIZE == 0x3_ffff || InRange(0, n, va)
  {
    hide FreePages;
    var k := KeyOf(PageNo(va), 4);
    assert k == Key(4, va / 4096);
    hide WithStack, MapPages, KeyOf, PageNo;
    ImageTables(root, c, n);
    StackTables(root, c);
    MapPagesExtends(WithStack(root, c), 0, n);
    if InRange(0, n, va) {
      LeafNumber(0, va / 4096);
      MapPagesGrows(WithStack(root, c), 0, n, va / 4096);
    }
  }

  lemma WordsInRam(m: Memory, slot: int)
    requires HasWords(slot)
    ensures InWords(RecordsAt(m, slot))
  {
  }

  lemma CreatedSlot(h: Heap, size: nat)
    requires CanCreate(h, size)
    ensures CanMalloc(HeapWithStack(h), MM_STRUCT_SIZE)
    ensures Create(h, size).slot == Malloc(HeapWithStack(h), MM_STRUCT_SIZE).1
  {
    StackTaken(h, size);
  }

  lemma KeptSince(m0: Memory, m1: Memory, m2: Memory, c0: Counts, c1: Counts, slot: int)
    requires UsedPagesKept(m0, m1, c0) && KeptButSlot(m1, m2, c1, slot) && UsedCountsKept(c0, c1)
    ensures KeptButSlot(m0, m2, c0, slot)
  {
    forall q, i | IsPfn(q) && c0[q] != 0 && 0 <= i < WORDS && !InSlot(slot, q * WORDS + i)
      ensures Entry(m2, q, i) == Entry(m0, q, i)
    {
      assert SamePage(m0, m1, q);
    }
  }

  // ---------------------------------------------------------------- a slot that was used before

  /** The words of the slot that must be null when there is room for more records: the pa of each element of vma,
      and the tables that are not overwritten. */
  predicate MustBeNull(i: int) {
    (2 <= i <= 32 && i % 2 == 0) || i == 33 || 36 <= i <= 40
  }

  lemma DirtyWord(m: Memory, slot: int, s: Space, i: int)
    requires HasWords(slot) && MustBeNull(i) && MmWord(m, slot, i) != 0 && |s.vma| < MAX_USER_PAGES
    ensures !SlotFits(RecordsAt(m, slot), s)
  {
    SmallImageFits(RecordsAt(m, slot), s);
    if i <= 32 {
      EntryAt(m, slot, i / 2 - 1);
    } else {
      TableAt(m, slot, i - 33);
    }
  }

  /** With all of them null the records come out right. */
  lemma CleanWords(m: Memory, slot: int, s: Space)
    requires HasWords(slot) && forall i :: MustBeNull(i) ==> MmWord(m, slot, i) == 0
    ensures SlotFits(RecordsAt(m, slot), s)
  {
    var r := RecordsAt(m, slot);
    forall j | 0 <= j < MAX_USER_PAGES
      ensures r.vma[j].pa == 0
    {
      assert MustBeNull(2 + 2 * j);
    }
    assert FitsFrom(r.vma, s.vma, MAX_USER_PAGES);
    forall j | j == 0 || 3 <= j < MAX_PGTBL_PAGES
      ensures r.tables[j] == 0
    {
      assert MustBeNull(33 + j);
    }
  }

  lemma FewRecords(h: Heap, size: nat)
    requires CanCreate(h, size) && PagesFor(size) < MAX_USER_PAGES - 1
    ensures |Create(h, size).space.vma| < MAX_USER_PAGES
  {
    StackTaken(h, size);
    var h2 := Malloc(HeapWithStack(h), MM_STRUCT_SIZE).0;
    var root := HighestFree(h2.count);
    hide Malloc, GoodHeap, CanMalloc, WithImage, FreePages, HighestFree, PagesFor;
    SizeFits(h2.count, size);
    FreePagesPositive(h2.count);
    TakePage(h2.count, root);
    ImageTables(root, h2.count[root := 1], PagesFor(size));
  }

  /** An object used and freed just before a process is created becomes its mm_struct, and if its user left one of
      those words not null, the records are wrong: whatever the heap, as long as kmalloc finds a bucket with free
      space. */
  method ReuseSlot(kh: KernelHeap, i: int, w: Word, src: int, size: nat) returns (mm: MmStruct, stack: int, slot: int)
    requires kh.Valid() && CanCreate(kh.v.heap, size) && MustBeNull(i) && w != 0 && PagesFor(size) < MAX_USER_PAGES - 1
    requires var chain := kh.v.heap.chains[ClassOf(MM_STRUCT_SIZE)]; FirstFree(chain, kh.v.heap.buckets) < |chain|
    requires SourceInUse(src, size, kh.ram.Count()) && BesideSlot(src, size, Create(kh.v.heap, size).slot)
    modifies kh, kh.dir, kh.ram.mem, kh.ram.count, kh.v.descs
    ensures kh.Valid() && fresh(mm) && mm.Valid(kh.ram)
    ensures Created(kh.v.heap, slot, stack, mm.space) == Create(old(kh.v.heap), size)
    ensures SlotHolds(kh.ram.Mem(), slot, mm) && !mm.Recorded()
  {
    hide KernelHeap.Valid, GoodHeap, CanMalloc, Malloc, MmStruct.Valid, SourceInUse, HoldsImage, StackClear,
         FreePages, PagesFor, RamBytes, Create, CanCreate, HasWords, RecordsAt, SlotHolds, SlotFits, SlotBefore,
         KeptButSlot, BesideSlot, Holds;
    ghost var h := kh.v.heap;
    HeapCounts(kh);
    CreatedSlot(h, size);
    StackOnly(h, size);
    var obj := UseAndFree(kh, i, w);
    HeapCounts(kh);
    ghost var m := kh.ram.Mem();
    mm, stack, slot := CopyProcess(kh, src, size);
    DirtySlot(h, m, size, i, w);
  }

  /** The page taken for the stack does not change what kmalloc returns. */
  lemma StackOnly(h: Heap, size: nat)
    requires CanCreate(h, size)
    requires var chain := h.chains[ClassOf(MM_STRUCT_SIZE)]; FirstFree(chain, h.buckets) < |chain|
    ensures CanMalloc(h, MM_STRUCT_SIZE)
    ensures Create(h, size).slot == Malloc(h, MM_STRUCT_SIZE).1
  {
    StackTaken(h, size);
  }

  lemma DirtySlot(h: Heap, m: Memory, size: nat, i: int, w: Word)
    requires CanCreate(h, size) && MustBeNull(i) && w != 0 && PagesFor(size) < MAX_USER_PAGES - 1
    requires var slot := Create(h, size).slot; PageOf(slot) in h.buckets && HasWords(slot) && MmWord(m, slot, i) == w
    ensures !SlotFits(SlotBefore(h, m, Create(h, size).slot), Create(h, size).space)
  {
    hide CanCreate, Create, HasWords, SlotFits, PagesFor;
    FewRecords(h, size);
    DirtyWord(m, Create(h, size).slot, Create(h, size).space, i);
  }

  /** kmalloc, a store to word `i` of the object, free_s. */
  method UseAndFree(kh: KernelHeap, i: int, w: Word) returns (obj: int)
    requires kh.Valid() && CanMalloc(kh.v.heap, MM_STRUCT_SIZE) && 0 < i < MM_WORDS
    requires var chain := kh.v.heap.chains[ClassOf(MM_STRUCT_SIZE)]; FirstFree(chain, kh.v.heap.buckets) < |chain|
    modifies kh, kh.dir, kh.ram.mem, kh.ram.count, kh.v.descs
    ensures kh.Valid() && kh.v.heap == old(kh.v.heap) && fresh(kh.v.descs - old(kh.v.descs))
    ensures obj == Malloc(old(kh.v.heap), MM_STRUCT_SIZE).1 && PageOf(obj) in kh.v.heap.buckets
    ensures HasWords(obj) && MmWord(kh.ram.Mem(), obj, i) == w
  {
    hide KernelHeap.Valid, GoodHeap, CanMalloc, Malloc, UsedPagesKept, IsMmSlot, HasWords, IsLive, Free, OnlyWord,
         ObjectClear, InSlot, FirstFree, ClassOf;
    ghost var h := kh.v.heap;
    FreeUndoesMalloc(h, MM_STRUCT_SIZE);
    MallocSlot(h);
    obj := kh.Kmalloc(MM_STRUCT_SIZE);
    SameKeys(kh);
    SlotInHeap(kh.v.heap, obj);
    WriteWord(kh, obj, i, w);
    ghost var m := kh.ram.Mem();
    kh.FreeS(obj, MM_STRUCT_SIZE);
    SameKeys(kh);
    FirstWordApart(m, kh.ram.Mem(), obj, i);
  }

  /** The owner of an object writes to it. */
  method WriteWord(kh: KernelHeap, obj: int, i: int, w: Word)
    requires kh.Valid() && IsMmSlot(kh.v.heap, obj) && HasWords(obj) && 0 <= i < MM_WORDS
    modifies kh.ram.mem
    ensures kh.Valid() && MmWord(kh.ram.Mem(), obj, i) == w
  {
    SameKeys(kh);
    SlotInHeap(kh.v.heap, obj);
    SlotAddress(obj, i);
    ghost var m := kh.ram.Mem();
    kh.ram.Store(obj + 8 * i, w);
    assert InSlot(obj, WordIndex(obj) + i);
    SlotWritten(m, kh.ram.Mem(), kh.v.heap, obj);
    hide HasWords, IsMmSlot, InSlot, InRam, WordIndex, OnlyObject;
    ObjectWritten(kh, obj);
  }

  lemma FirstWordApart(m: Memory, m': Memory, obj: int, i: int)
    requires HasWords(obj) && OnlyWord(m, m', obj) && 0 < i < MM_WORDS
    ensures MmWord(m', obj, i) == MmWord(m, obj, i)
  {
    SlotAddress(obj, i);
  }
}