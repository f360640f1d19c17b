/** What RAM holds over runs of the system: the page tables of every live process, and the records of every
    process in its slot. */
module Survival {
  import opened PhysMem
  import opened PageTable
  import opened Heap
  import opened Kmalloc
  import opened Process
  import opened RecordArrays
  import opened MmSlot
  import opened CopyProcess
  import opened Ownership

  /** A call with the memory it leaves, or stores between calls. */
  datatype Move = Call(e: Event, after: Memory) | Stores(after: Memory)

  /** What each call does to memory. */
  ghost predicate Changed(s: System, e: Event, m: Memory, m': Memory)
    requires Possible(s, e) && |s.heap.count| == PAGING_PAGES
  {
    match e
    case EMalloc(_) => UsedPagesKept(m, m', s.heap.count)
    case EFree(obj) => OnlyWord(m, m', obj)
    case EThread => UsedPagesKept(m, m', s.heap.count)
    case ECreate(size, before) =>
      var c := Create(s.heap, size);
      && before == SlotBefore(s.heap, m, c.slot) && KeptButSlot(m, m', s.heap.count, c.slot)
      && Tree(m', c.space.nodes)
      && HasWords(c.slot) && RecordsAt(m', c.slot) == CreatedRecords(s.heap, size, before)
    case EDelete(_) => m' == m
  }

  /** The words that anybody may store to: a process to its pages, the kernel to its pages and stacks, and the owner
      of an object to the object, unless it is the mm_struct of a process. */
  ghost predicate MayStore(s: System, w: int) {
    || IsOpenPage(s, w / WORDS)
    || exists x :: IsLive(s.heap, x) && InObject(s.heap, x, w) && !IsMmStruct(s, x)
  }
  ghost predicate IsOpenPage(s: System, p: int) {
    exists o :: IsOpen(o) && Owns(s, o, p)
  }
  predicate IsOpen(o: Owner) {
    o.KernelPage? || o.StackPage? || (o.TreePage? && o.key.level == 4)
  }
  ghost predicate IsMmStruct(s: System, x: int) {
    exists i :: 0 <= i < |s.procs| && s.procs[i].slot == x
  }

  ghost predicate CanTake(s: System, m: Memory, t: Move) {
    match t
    case Call(e, m') => |s.heap.count| == PAGING_PAGES && Possible(s, e) && Changed(s, e, m, m')
    case Stores(m') => forall w :: 0 <= w < PAGING_PAGES * WORDS && m'[w] != m[w] ==> MayStore(s, w)
  }
  ghost function Taken(s: System, m: Memory, t: Move): System
    requires CanTake(s, m, t)
  {
    if t.Call? then Next(s, t.e) else s
  }

  /** RAM holds the tree of every live process. */
  ghost predicate TreesHeld(s: System, m: Memory) {
    forall pid :: 0 <= pid < |s.procs| && s.procs[pid].alive ==> Tree(m, s.procs[pid].space.nodes)
  }

  /** The slot of every process holds its records. */
  ghost predicate RecordsHeld(s: System, m: Memory) {
    forall pid :: 0 <= pid < |s.procs| ==> RecordHeld(s.heap, s.procs[pid], m)
  }
  ghost predicate RecordHeld(h: Heap, q: Proc, m: Memory) {
    IsMmSlot(h, q.slot) && HasWords(q.slot) && RecordsAt(m, q.slot) == q.records
  }

  ghost predicate Held(s: System, m: Memory) {
    Inv(s) && AllRecorded(s) && TreesHeld(s, m) && RecordsHeld(s, m)
  }

  // ---------------------------------------------------------------- tables

  /** A page that holds a table of a live process. */
  ghost predicate IsTable(s: System, p: int) {
    exists pid: nat, k: Key :: pid < |s.procs| && s.procs[pid].alive && k.level < 4 && OwnsNode(s.procs[pid], k, p)
  }

  lemma TablePageIs(s: System, p: int)
    requires Inv(s) && IsTable(s, p)
    ensures GoodHeap(s.heap) && IsPfn(p) && s.heap.count[p] == 1 && p !in s.heap.buckets && !IsOpenPage(s, p)
  {
    var pid: nat, k: Key :| pid < |s.procs| && s.procs[pid].alive && k.level < 4 && OwnsNode(s.procs[pid], k, p);
    assert Owns(s, TreePage(pid, k), p);
    assert Owns(s, BucketPage, p) <==> p in s.heap.buckets;
  }

  /** No call changes a table that was there before, and no store does. */
  lemma TablesUntouched(s: System, m: Memory, t: Move, p: int)
    requires Inv(s) && CanTake(s, m, t) && IsTable(s, p)
    ensures IsPfn(p) && SamePage(m, t.after, p)
  {
    TablePageIs(s, p);
    hide Inv, GoodHeap, CanMalloc, CanCreate, Create, IsLive, IsTable, Tree, OnlyWord, KeptButSlot, SamePage,
         IsOpenPage, SlotBefore, CreatedRecords, MayStore;
    match t
    case Stores(m') =>
      NoStoreTo(s, m, m', p);
    case Call(e, m') =>
      match e
      case EMalloc(_) =>
      case EThread =>
      case EDelete(_) =>
        SameAsItself(m);
      case EFree(obj) =>
        ObjectElsewhere(s.heap, obj, m, m', p);
      case ECreate(size, _) =>
        SlotElsewhere(s.heap, size, m, m', p);
  }

  lemma NoStoreTo(s: System, m: Memory, m': Memory, p: int)
    requires GoodHeap(s.heap) && CanTake(s, m, Stores(m')) && IsPfn(p) && p !in s.heap.buckets && !IsOpenPage(s, p)
    ensures SamePage(m, m', p)
  {
    forall i | 0 <= i < WORDS
      ensures Entry(m', p, i) == Entry(m, p, i)
    {
      var w := p * WORDS + i;
      if m'[w] != m[w] {
        assert w / WORDS == p;
        var x :| IsLive(s.heap, x) && InObject(s.heap, x, w) && !IsMmStruct(s, x);
        ObjectWords(s.heap, x, w);
      }
    }
  }

  /** The words of an object are in its page. */
  lemma ObjectWords(h: Heap, x: int, w: int)
    requires GoodHeap(h) && IsLive(h, x) && InObject(h, x, w)
    ensures IsPfn(PageOf(x)) && PageOf(x) in h.buckets && h.count[PageOf(x)] == 1
    ensures PageOf(x) * WORDS <= w < (PageOf(x) + 1) * WORDS && w / WORDS == PageOf(x)
  {
    var p := PageOf(x);
    assert GoodBucket(p, h.buckets[p]);
    SlotWord(p, h.buckets[p].cls, x);
    SlotsApart(p, h.buckets[p].cls, x, x);
  }

  lemma ObjectElsewhere(h: Heap, obj: int, m: Memory, m': Memory, p: int)
    requires GoodHeap(h) && IsLive(h, obj) && IsPfn(p) && p !in h.buckets && OnlyWord(m, m', obj)
    ensures SamePage(m, m', p)
  {
    var q := PageOf(obj);
    assert GoodBucket(q, h.buckets[q]);
    SlotWord(q, h.buckets[q].cls, obj);
  }

  /** The slot of a new process is on a bucket page or on one that was free. */
  lemma SlotPlace(h: Heap, size: nat)
    requires CanCreate(h, size)
    ensures var c := Create(h, size);
      && IsPfn(PageOf(c.slot)) && (PageOf(c.slot) in h.buckets || h.count[PageOf(c.slot)] == 0)
      && GoodHeap(c.heap) && IsMmSlot(c.heap, c.slot)
      && forall w :: InSlot(c.slot, w) ==> PageOf(c.slot) * WORDS <= w < (PageOf(c.slot) + 1) * WORDS
  {
    CreatedSlot(h, size);
    StackTaken(h, size);
    var h1 := HeapWithStack(h);
    MallocSlot(h1);
    CreateHeap(h, size, Create(h, size).slot);
    var (h2, slot) := Malloc(h1, MM_STRUCT_SIZE);
    SlotInHeap(h2, slot);
    assert PageOf(slot) in h2.buckets;
    assert Create(h, size).heap.buckets == h2.buckets;
    hide GoodHeap, FreePages, HighestFree, PageOf, InSlot, Create;
    ChooseGood(h1, ClassOf(MM_STRUCT_SIZE));
  }

  lemma SlotElsewhere(h: Heap, size: nat, m: Memory, m': Memory, p: int)
    requires CanCreate(h, size) && IsPfn(p) && p !in h.buckets && h.count[p] != 0
    requires KeptButSlot(m, m', h.count, Create(h, size).slot)
    ensures SamePage(m, m', p)
  {
    hide Create, CanCreate;
    SlotPlace(h, size);
    var slot := Create(h, size).slot;
    forall i | 0 <= i < WORDS
      ensures Entry(m', p, i) == Entry(m, p, i)
    {
      assert !InSlot(slot, p * WORDS + i);
    }
  }

  lemma OldTreeHeld(s: System, m: Memory, t: Move, pid: nat)
    requires Inv(s) && TreesHeld(s, m) && CanTake(s, m, t) && pid < |s.procs| && s.procs[pid].alive
    ensures Tree(t.after, s.procs[pid].space.nodes)
  {
    var nodes := s.procs[pid].space.nodes;
    hide Tree, CanTake, SamePage;
    forall k | k in nodes && k.level < 4
      ensures IsPfn(nodes[k]) && SamePage(m, t.after, nodes[k])
    {
      assert OwnsNode(s.procs[pid], k, nodes[k]);
      assert IsTable(s, nodes[k]);
      TablesUntouched(s, m, t, nodes[k]);
    }
    TreeKept(m, t.after, nodes);
  }

  // ---------------------------------------------------------------- slots

  /** No call changes a word of the slot of a process that was there before, and no store does. */
  lemma SlotUntouched(s: System, m: Memory, t: Move, pid: nat, w: int)
    requires Inv(s) && CanTake(s, m, t) && pid < |s.procs| && IsMmSlot(s.heap, s.procs[pid].slot)
    requires InSlot(s.procs[pid].slot, w) && 0 <= w < PAGING_PAGES * WORDS
    ensures t.after[w] == m[w]
  {
    var slot := s.procs[pid].slot;
    SlotInHeap(s.heap, slot);
    ObjectWords(s.heap, slot, w);
    hide Create, CreatedRecords, SlotBefore, CanMalloc, CanCreate, Tree, KeptButSlot, IsMmSlot;
    match t
    case Stores(m') =>
      NoStoreToSlot(s, m, m', pid, w);
    case Call(e, m') =>
      match e
      case EMalloc(_) =>
        KeptWord(m, m', s.heap.count, w);
      case EThread =>
        KeptWord(m, m', s.heap.count, w);
      case EDelete(_) =>
      case EFree(obj) =>
        ObjectsApart(s.heap, slot, obj, w);
      case ECreate(size, _) =>
        SlotsDiffer(s.heap, size, slot, w);
        KeptBesideSlot(m, m', s.heap.count, Create(s.heap, size).slot, w);
  }

  lemma KeptWord(m: Memory, m': Memory, c: Counts, w: int)
    requires UsedPagesKept(m, m', c) && 0 <= w < PAGING_PAGES * WORDS && c[w / WORDS] != 0
    ensures m'[w] == m[w]
  {
    assert SamePage(m, m', w / WORDS);
    assert Entry(m', w / WORDS, w % WORDS) == Entry(m, w / WORDS, w % WORDS);
  }

  lemma KeptBesideSlot(m: Memory, m': Memory, c: Counts, slot: int, w: int)
    requires KeptButSlot(m, m', c, slot) && 0 <= w < PAGING_PAGES * WORDS && c[w / WORDS] != 0 && !InSlot(slot, w)
    ensures m'[w] == m[w]
  {
    assert w == w / WORDS * WORDS + w % WORDS;
    assert Entry(m', w / WORDS, w % WORDS) == Entry(m, w / WORDS, w % WORDS);
  }

  /** Different objects have no word in common. */
  lemma ObjectsApart(h: Heap, x: int, y: int, w: int)
    requires GoodHeap(h) && IsLive(h, x) && IsLive(h, y) && x != y && InObject(h, x, w)
    ensures !InObject(h, y, w) && w != WordIndex(y)
  {
    LiveApart(h, x, y);
    ObjectWords(h, x, w);
    var p, q := PageOf(x), PageOf(y);
    assert GoodBucket(p, h.buckets[p]) && GoodBucket(q, h.buckets[q]);
    SlotWord(p, h.buckets[p].cls, x);
    SlotWord(q, h.buckets[q].cls, y);
  }

  lemma SlotsDiffer(h: Heap, size: nat, slot: int, w: int)
    requires CanCreate(h, size) && GoodHeap(h) && IsMmSlot(h, slot) && InSlot(slot, w)
    ensures !InSlot(Create(h, size).slot, w)
  {
    var c := Create(h, size);
    CreateHeap(h, size, slot);
    SlotPlace(h, size);
    hide CanCreate, Create, GoodHeap, IsLive;
    SlotInHeap(c.heap, slot);
    SlotInHeap(c.heap, c.slot);
    ObjectsApart(c.heap, slot, c.slot, w);
  }

  lemma NoStoreToSlot(s: System, m: Memory, m': Memory, pid: nat, w: int)
    requires Inv(s) && CanTake(s, m, Stores(m')) && pid < |s.procs| && IsMmSlot(s.heap, s.procs[pid].slot)
    requires InObject(s.heap, s.procs[pid].slot, w) && 0 <= w < PAGING_PAGES * WORDS
    ensures m'[w] == m[w]
  {
    var slot := s.procs[pid].slot;
    ObjectWords(s.heap, slot, w);
    if m'[w] != m[w] {
      assert Owns(s, BucketPage, w / WORDS);
      assert !IsOpenPage(s, w / WORDS);
      var x :| IsLive(s.heap, x) && InObject(s.heap, x, w) && !IsMmStruct(s, x);
      ObjectsApart(s.heap, slot, x, w);
    }
  }

  lemma SameWords(m: Memory, m': Memory, slot: int)
    requires HasWords(slot) && forall w :: 0 <= w < PAGING_PAGES * WORDS && InSlot(slot, w) ==> m'[w] == m[w]
    ensures RecordsAt(m', slot) == RecordsAt(m, slot)
  {
    forall i | 0 <= i < MM_WORDS
      ensures MmWord(m', slot, i) == MmWord(m, slot, i)
    {
      assert InSlot(slot, WordIndex(slot) + i);
    }
    assert RecordsAt(m', slot).vma == RecordsAt(m, slot).vma;
  }

  /** The object stays what it is through every call. */
  lemma SlotSurvives(s: System, e: Event, pid: nat)
    requires Inv(s) && Possible(s, e) && pid < |s.procs| && IsMmSlot(s.heap, s.procs[pid].slot)
    ensures IsMmSlot(Next(s, e).heap, s.procs[pid].slot)
  {
    var slot := s.procs[pid].slot;
    hide GoodHeap, CanMalloc, CanCreate, Create, CreatedRecords, DropRefs, Malloc, Free;
    match e
    case EMalloc(len) => MallocKeeps(s.heap, len, slot);
    case EFree(obj) => FreeKeeps(s.heap, obj, slot);
    case ECreate(size, _) => CreateHeap(s.heap, size, slot);
    case EThread =>
    case EDelete(_) =>
  }

  lemma OldRecordHeld(s: System, m: Memory, t: Move, pid: nat)
    requires Inv(s) && RecordsHeld(s, m) && CanTake(s, m, t) && pid < |s.procs|
    ensures RecordHeld(Taken(s, m, t).heap, s.procs[pid], t.after)
  {
    var slot := s.procs[pid].slot;
    hide Changed, Next, Inv, RecordsAt, IsMmSlot, MayStore, InSlot;
    assert RecordHeld(s.heap, s.procs[pid], m);
    forall w | 0 <= w < PAGING_PAGES * WORDS && InSlot(slot, w)
      ensures t.after[w] == m[w]
    {
      SlotUntouched(s, m, t, pid, w);
    }
    SameWords(m, t.after, slot);
    if t.Call? {
      SlotSurvives(s, t.e, pid);
    }
  }

  // ---------------------------------------------------------------- runs

  /** Processes keep their spaces and records, and none comes back. */
  ghost predicate Continues(s: System, s': System) {
    && |s.procs| <= |s'.procs|
    && (forall pid :: 0 <= pid < |s.procs| ==>
          s'.procs[pid] == s.procs[pid].(alive := s'.procs[pid].alive) && (s'.procs[pid].alive ==> s.procs[pid].alive))
  }

  lemma ProcsContinue(s: System, e: Event)
    requires Possible(s, e)
    ensures Continues(s, Next(s, e))
    ensures |Next(s, e).procs| == if e.ECreate? then |s.procs| + 1 else |s.procs|
  {
    hide Create, CreatedRecords, DropRefs, ReleasedPages, Malloc, Free, GoodHeap, CanMalloc, CanCreate, HighestFree,
         FreePages;
  }

  lemma NewHeld(s: System, e: Event, m: Memory, m': Memory)
    requires Inv(s) && Possible(s, e) && Changed(s, e, m, m')
    ensures e.ECreate? ==>
      && |Next(s, e).procs| == |s.procs| + 1 && Tree(m', Next(s, e).procs[|s.procs|].space.nodes)
      && RecordHeld(Next(s, e).heap, Next(s, e).procs[|s.procs|], m')
  {
    if e.ECreate? {
      SlotPlace(s.heap, e.size);
    }
    hide Create, CreatedRecords, Malloc, Free, GoodHeap, CanMalloc, CanCreate, HighestFree, FreePages, Tree,
         RecordsAt, IsMmSlot;
  }

  /** Every move keeps what is held, if new processes get slots that fit. */
  lemma MoveKeeps(s: System, m: Memory, t: Move)
    requires Held(s, m) && CanTake(s, m, t) && (t.Call? ==> Fits(s, t.e))
    ensures Held(Taken(s, m, t), t.after) && Continues(s, Taken(s, m, t))
  {
    hide Inv, AllRecorded, Tree, Possible, Changed, Next, Fits, RecordHeld, MayStore;
    if t.Call? {
      FittingKeeps(s, t.e);
      ProcsContinue(s, t.e);
      NewHeld(s, t.e, m, t.after);
    }
    forall pid | 0 <= pid < |s.procs|
      ensures s.procs[pid].alive ==> Tree(t.after, s.procs[pid].space.nodes)
      ensures RecordHeld(Taken(s, m, t).heap, s.procs[pid], t.after)
    {
      if s.procs[pid].alive {
        OldTreeHeld(s, m, t, pid);
      }
      OldRecordHeld(s, m, t, pid);
    }
    StaysHeld(s, m, Taken(s, m, t), t.after);
  }

  lemma StaysHeld(s: System, m: Memory, s': System, m': Memory)
    requires Continues(s, s') && Inv(s') && AllRecorded(s') && |s'.procs| <= |s.procs| + 1
    requires forall pid :: 0 <= pid < |s.procs| && s.procs[pid].alive ==> Tree(m', s.procs[pid].space.nodes)
    requires forall pid :: 0 <= pid < |s.procs| ==> RecordHeld(s'.heap, s.procs[pid], m')
    requires |s'.procs| > |s.procs| ==>
      Tree(m', s'.procs[|s.procs|].space.nodes) && RecordHeld(s'.heap, s'.procs[|s.procs|], m')
    ensures Held(s', m')
  {
    hide Inv, AllRecorded, Tree, RecordsAt, IsMmSlot, HasWords;
    forall pid | 0 <= pid < |s'.procs|
      ensures s'.procs[pid].alive ==> Tree(m', s'.procs[pid].space.nodes)
      ensures RecordHeld(s'.heap, s'.procs[pid], m')
    {
      if pid < |s.procs| {
        assert RecordHeld(s'.heap, s.procs[pid], m');
      }
    }
  }

  ghost predicate CanRun(s: System, m: Memory, ts: seq<Move>)
    decreases |ts|
  {
    ts == [] || (CanTake(s, m, ts[0]) && CanRun(Taken(s, m, ts[0]), ts[0].after, ts[1..]))
  }
  ghost function End(s: System, m: Memory, ts: seq<Move>): (System, Memory)
    requires CanRun(s, m, ts)
    decreases |ts|
  {
    if ts == [] then (s, m) else End(Taken(s, m, ts[0]), ts[0].after, ts[1..])
  }

  /** Whenever a process is created in the run, what its slot holds fits. */
  ghost predicate FittingMoves(s: System, m: Memory, ts: seq<Move>)
    requires CanRun(s, m, ts)
    decreases |ts|
  {
    ts == [] || ((ts[0].Call? ==> Fits(s, ts[0].e)) && FittingMoves(Taken(s, m, ts[0]), ts[0].after, ts[1..]))
  }

  lemma {:induction false} RunHolds(s: System, m: Memory, ts: seq<Move>)
    requires Held(s, m) && CanRun(s, m, ts) && FittingMoves(s, m, ts)
    ensures var (s', m') := End(s, m, ts); Held(s', m') && Continues(s, s')
    decreases |ts|
  {
    hide Held, CanTake, Taken, Fits;
    if ts != [] {
      MoveKeeps(s, m, ts[0]);
      RunHolds(Taken(s, m, ts[0]), ts[0].after, ts[1..]);
    }
  }

  /** In every state reached from boot by creating processes in slots that fit, no page has two owners, RAM holds the
      tables of every live process, and the slot of every process holds its records, which are right. */
  lemma TreesInRam(s: System, m: Memory, ts: seq<Move>)
    requires IsBoot(s) && CanRun(s, m, ts) && FittingMoves(s, m, ts)
    ensures var (s', m') := End(s, m, ts); Held(s', m')
  {
    hide CanRun, End, Inv, CanTake, FittingMoves, AllRecorded;
    BootOwned(s);
    RunHolds(s, m, ts);
  }

  /** As long as a process lives, each of its addresses keeps its translation. */
  lemma TranslationsSurvive(s: System, m: Memory, ts: seq<Move>, pid: nat, va: int)
    requires Held(s, m) && CanRun(s, m, ts) && FittingMoves(s, m, ts) && 0 <= va < 0x1_0000_0000_0000
    requires pid < |s.procs| && pid < |End(s, m, ts).0.procs| && End(s, m, ts).0.procs[pid].alive
    ensures Key(0, 0) in s.procs[pid].space.nodes
    ensures var ttbr := PfnToPa(s.procs[pid].space.nodes[Key(0, 0)]);
      Translate(End(s, m, ts).1, ttbr, va) == Translate(m, ttbr, va)
  {
    var (s', m') := End(s, m, ts);
    hide CanRun, End, CanTake, Translate, FittingMoves;
    RunHolds(s, m, ts);
    var nodes := s.procs[pid].space.nodes;
    TreeTranslates(m, nodes, va);
    TreeTranslates(m', nodes, va);
  }
}
