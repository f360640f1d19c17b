/** Who owns each physical page, over runs of kmalloc, free_s, kthread_create, copy_process and delete_process. */
module Ownership {
  import opened PhysMem
  import opened PageTable
  import opened Heap
  import opened Process
  import opened RecordArrays

  /** A process: what it was given, and what the record arrays in its slot hold. */
  datatype Proc = Proc(stack: int, slot: int, space: Space, size: nat, records: Records, alive: bool)

  /** `kept` lists the pages the kernel takes for itself and never gives back: stacks of kernel threads
      and tables of its own. Processes stay in the list when they are deleted. */
  datatype System = System(heap: Heap, procs: seq<Proc>, kept: seq<int>)

  datatype Owner =
    | BucketPage
    | DescPage(i: nat)
    | KernelPage(i: nat)
    | StackPage(pid: nat)
    | TreePage(pid: nat, key: Key)

  ghost predicate Owns(s: System, o: Owner, p: int) {
    match o
    case BucketPage => p in s.heap.buckets
    case DescPage(i) => i < |s.heap.descPages| && s.heap.descPages[i] == p
    case KernelPage(i) => i < |s.kept| && s.kept[i] == p
    case StackPage(pid) => pid < |s.procs| && s.procs[pid].alive && s.procs[pid].stack == p
    case TreePage(pid, k) => pid < |s.procs| && OwnsNode(s.procs[pid], k, p)
  }

  /** A deleted process still holds the pages its records do not name. */
  ghost predicate OwnsNode(q: Proc, k: Key, p: int) {
    k in q.space.nodes && q.space.nodes[k] == p && (q.alive || !IsNamed(q, p))
  }
  ghost predicate IsNamed(q: Proc, p: int) {
    IsRecords(q.records) && p in NamedPages(q.records)
  }

  /** The pages in use are those with an owner, and no page has two. */
  ghost predicate OneOwner(s: System) {
    && |s.heap.count| == PAGING_PAGES
    && (forall o, p :: Owns(s, o, p) ==> IsPfn(p) && s.heap.count[p] == 1)
    && (forall o, o', p :: Owns(s, o, p) && Owns(s, o', p) ==> o == o')
    && (forall p :: IsPfn(p) && s.heap.count[p] != 0 ==> exists o :: Owns(s, o, p))
  }

  /** What there is to record of a process: its tables, and its pages if the image is small enough. */
  ghost predicate GoodProc(q: Proc) {
    && IsRecords(q.records) && Injective(q.space.nodes) && OnPages(q.space.nodes)
    && TablesRecorded(q.space) && PagesListed(q.space) && Key(0, 0) in q.space.nodes
    && (forall k :: k in q.space.nodes ==> k.level <= 4 && (k.level == 0 ==> k == Key(0, 0)))
    && (PagesRecorded(q.space) <==> PagesFor(q.size) < MAX_USER_PAGES)
  }

  ghost predicate SlotsHeld(s: System) {
    && (forall i :: 0 <= i < |s.procs| ==> IsLive(s.heap, s.procs[i].slot))
    && (forall i, j :: 0 <= i < j < |s.procs| ==> s.procs[i].slot != s.procs[j].slot)
  }

  ghost predicate Inv(s: System) {
    && GoodHeap(s.heap) && OneOwner(s) && SlotsHeld(s)
    && (forall i :: 0 <= i < |s.procs| ==> GoodProc(s.procs[i]))
  }

  /** The record arrays of every process are right. */
  ghost predicate AllRecorded(s: System) {
    forall i :: 0 <= i < |s.procs| ==> Holds(s.procs[i].records, s.procs[i].space)
  }

  // ---------------------------------------------------------------- how ownership changes

  /** New owners take pages nobody used. */
  lemma Extended(s: System, s': System)
    requires OneOwner(s) && UsedCountsKept(s.heap.count, s'.heap.count)
    requires forall o, p :: Owns(s, o, p) ==> Owns(s', o, p)
    requires forall o, p :: Owns(s', o, p) ==>
      Owns(s, o, p) || (IsPfn(p) && s.heap.count[p] == 0 && s'.heap.count[p] == 1)
    requires forall o, o', p :: Owns(s', o, p) && Owns(s', o', p) && !Owns(s, o, p) && !Owns(s, o', p) ==> o == o'
    requires forall p :: IsPfn(p) && s.heap.count[p] == 0 && s'.heap.count[p] != 0 ==> exists o :: Owns(s', o, p)
    ensures OneOwner(s')
  {
    hide Owns;
    forall p | IsPfn(p) && s'.heap.count[p] != 0
      ensures exists o :: Owns(s', o, p)
    {
      if s.heap.count[p] != 0 {
        var o :| Owns(s, o, p);
        assert Owns(s', o, p);
      }
    }
  }

  /** Pages given back lose their owner. */
  lemma Shrunk(s: System, s': System)
    requires OneOwner(s) && |s'.heap.count| == PAGING_PAGES
    requires forall p :: IsPfn(p) ==> s'.heap.count[p] == s.heap.count[p] || s'.heap.count[p] == 0
    requires forall o, p :: Owns(s', o, p) <==> Owns(s, o, p) && IsPfn(p) && s'.heap.count[p] != 0
    ensures OneOwner(s')
  {
    hide Owns;
    forall p | IsPfn(p) && s'.heap.count[p] != 0
      ensures exists o :: Owns(s', o, p)
    {
      var o :| Owns(s, o, p);
      assert Owns(s', o, p);
    }
  }

  lemma MallocOwns(s: System, len: nat)
    requires OneOwner(s) && CanMalloc(s.heap, len)
    ensures OneOwner(s.(heap := Malloc(s.heap, len).0))
  {
    var c := ClassOf(len);
    ChooseGood(s.heap, c);
    MallocPages(s.heap, len);
    TookAtMostTwo(s.heap, Malloc(s.heap, len).0, c, Choose(s.heap, c).0, Choose(s.heap, c).1);
    HeapGrows(s, Malloc(s.heap, len).0);
  }

  ghost predicate HeapTook(h: Heap, h': Heap) {
    && |h.count| == |h'.count| == PAGING_PAGES
    && h.buckets.Keys <= h'.buckets.Keys
    && (forall q :: q in h'.buckets && q !in h.buckets ==> IsPfn(q) && h.count[q] == 0 && h'.count[q] == 1)
    && (h'.descPages == h.descPages
        || exists d :: h'.descPages == h.descPages + [d]
             && IsPfn(d) && h.count[d] == 0 && h'.count[d] == 1 && d !in h'.buckets)
    && (forall q :: IsPfn(q) && h.count[q] == 0 && h'.count[q] != 0 ==> q in h'.buckets || q in h'.descPages)
  }

  lemma HeapGrows(s: System, h: Heap)
    requires OneOwner(s) && HeapTook(s.heap, h) && UsedCountsKept(s.heap.count, h.count)
    ensures OneOwner(s.(heap := h))
  {
    var s' := s.(heap := h);
    hide OwnsNode;
    forall p | IsPfn(p) && s.heap.count[p] == 0 && h.count[p] != 0
      ensures exists o :: Owns(s', o, p)
    {
      if p in h.buckets {
        assert Owns(s', BucketPage, p);
      } else {
        var i :| 0 <= i < |h.descPages| && h.descPages[i] == p;
        assert Owns(s', DescPage(i), p);
      }
    }
    Extended(s, s');
  }

  /** A page kmalloc takes goes to a bucket or to the descriptors, and not to both. */
  lemma TookAtMostTwo(h: Heap, h': Heap, c: int, g: Heap, p: int)
    requires GoodHeap(h) && 0 <= c < NR_SIZES && Chosen(h, g, c, p) && h' == PopFrom(g, p)
    ensures HeapTook(h, h')
  {
    if h'.descPages != h.descPages {
      var d := h'.descPages[|h.descPages|];
      assert h'.descPages == h.descPages + [d] && d !in h'.buckets;
    }
  }

  lemma FreeOwns(s: System, obj: int)
    requires OneOwner(s) && GoodHeap(s.heap) && IsLive(s.heap, obj)
    ensures OneOwner(s.(heap := Free(s.heap, obj)))
  {
    var p, h, s' := PageOf(obj), Free(s.heap, obj), s.(heap := Free(s.heap, obj));
    assert Owns(s, BucketPage, p);
    FreeGivesBack(s.heap, obj);
    hide Free, GoodHeap, IsLive;
    forall o, q
      ensures Owns(s', o, q) <==> Owns(s, o, q) && IsPfn(q) && h.count[q] != 0
    {
      if Owns(s, o, q) && q == p {
        assert o == BucketPage;
      }
    }
    Shrunk(s, s');
  }

  lemma TakeOwns(s: System)
    requires OneOwner(s) && FreePages(s.heap.count) > 0
    ensures HighestFree(s.heap.count) >= 0
    ensures OneOwner(TakeKernelPage(s))
  {
    var n, p, s' := |s.kept|, HighestFree(s.heap.count), TakeKernelPage(s);
    FreePagesPositive(s.heap.count);
    assert Owns(s', KernelPage(n), p);
    Extended(s, s');
  }

  /** kthread_create's page. */
  ghost function TakeKernelPage(s: System): System {
    var p := HighestFree(s.heap.count);
    if p < 0 then s else s.(heap := s.heap.(count := s.heap.count[p := 1]), kept := s.kept + [p])
  }

  // ---------------------------------------------------------------- processes come and go

  ghost function AddProc(s: System, c: Created, size: nat, r: Records): System {
    s.(heap := c.heap, procs := s.procs + [Proc(c.stack, c.slot, c.space, size, r, true)])
  }

  lemma AddStack(s: System, slot: int, size: nat, r: Records)
    requires OneOwner(s) && FreePages(s.heap.count) > 0
    ensures var c := Created(HeapWithStack(s.heap), slot, HighestFree(s.heap.count), Space(map[], [], []));
      OneOwner(AddProc(s, c, size, r))
  {
    var n, p := |s.procs|, HighestFree(s.heap.count);
    var s' := AddProc(s, Created(HeapWithStack(s.heap), slot, p, Space(map[], [], [])), size, r);
    FreePagesPositive(s.heap.count);
    assert s'.procs[..n] == s.procs;
    assert Owns(s', StackPage(n), p);
    Extended(s, s');
  }

  /** The last process gets its tree. */
  lemma AddTree(s: System, n: nat, g: Mapping)
    requires OneOwner(s) && |s.procs| == n + 1 && s.procs[n].alive && s.procs[n].space.nodes == map[]
    requires Claims(g, s.heap.count) && UsedCountsKept(s.heap.count, g.count)
    ensures OneOwner(s.(heap := s.heap.(count := g.count), procs := s.procs[n := s.procs[n].(space := g.space)]))
  {
    var s' := s.(heap := s.heap.(count := g.count), procs := s.procs[n := s.procs[n].(space := g.space)]);
    forall p | IsPfn(p) && s.heap.count[p] == 0 && s'.heap.count[p] != 0
      ensures exists o :: Owns(s', o, p)
    {
      var k :| k in g.space.nodes && g.space.nodes[k] == p;
      assert Owns(s', TreePage(n, k), p);
    }
    hide IsNamed;
    Extended(s, s');
  }

  lemma ClaimsKeep(g: Mapping, c: Counts)
    requires Claims(g, c)
    ensures UsedCountsKept(c, g.count) && Injective(g.space.nodes) && OnPages(g.space.nodes)
  {
    forall p | IsPfn(p) && c[p] != 0
      ensures g.count[p] == c[p]
    {
    }
  }

  /** The stages of copy_process: the heap once the stack and the mm_struct are taken, the page of the
      top-level table, and the finished tree. */
  lemma CreateParts(h: Heap, size: nat) returns (h2: Heap, root: int, g: Mapping)
    requires CanCreate(h, size)
    ensures var c, n := Create(h, size), PagesFor(size);
      && CanMalloc(HeapWithStack(h), MM_STRUCT_SIZE) && (h2, c.slot) == Malloc(HeapWithStack(h), MM_STRUCT_SIZE)
      && GoodHeap(h2) && c.stack == HighestFree(h.count)
      && IsPfn(root) && |h2.count| == PAGING_PAGES && h2.count[root] == 0
      && g == WithImage(root, h2.count[root := 1], n)
      && c.heap == h2.(count := g.count) && c.space == g.space
      && n <= 959 && FreePages(h2.count[root := 1]) >= 4 + 4 * n
    ensures Claims(g, h2.count) && UsedCountsKept(h2.count, g.count)
  {
    StackTaken(h, size);
    h2 := Malloc(HeapWithStack(h), MM_STRUCT_SIZE).0;
    root := HighestFree(h2.count);
    FreePagesPositive(h2.count);
    TakePage(h2.count, root);
    g := WithImage(root, h2.count[root := 1], PagesFor(size));
    AtMostAll(h2.count);
    hide GoodHeap, Malloc, CanMalloc, Claims, WithImage, FreePages;
    ImageClaims(root, h2.count, PagesFor(size));
    ClaimsKeep(g, h2.count);
  }

  lemma CreateOwns(s: System, size: nat, r: Records)
    requires OneOwner(s) && CanCreate(s.heap, size)
    ensures OneOwner(AddProc(s, Create(s.heap, size), size, r))
  {
    var h, n := s.heap, |s.procs|;
    var c, h1 := Create(h, size), HeapWithStack(h);
    var s1 := AddProc(s, Created(h1, c.slot, HighestFree(h.count), Space(map[], [], [])), size, r);
    AddStack(s, c.slot, size, r);
    var h2, root, g := CreateParts(h, size);
    hide Create, GoodHeap, Malloc, OneOwner, WithImage, CanCreate, Claims, CanMalloc, HeapWithStack, FreePages,
         UsedCountsKept;
    MallocOwns(s1, MM_STRUCT_SIZE);
    var s2 := s1.(heap := h2);
    AddTree(s2, n, g);
    assert s2.procs[n := s2.procs[n].(space := g.space)] == s.procs + [Proc(c.stack, c.slot, c.space, size, r, true)];
  }

  lemma CreateGood(h: Heap, size: nat, r: Records)
    requires CanCreate(h, size) && IsRecords(r)
    ensures GoodProc(Proc(Create(h, size).stack, Create(h, size).slot, Create(h, size).space, size, r, true))
  {
    hide GoodHeap, CanCreate, Malloc, CanMalloc, TablesRecorded, PagesListed, PagesRecorded, FreePages, PagesFor,
         Create, HeapWithStack, Claims, UsedCountsKept, WithImage;
    var h2, root, g := CreateParts(h, size);
    var c: Counts := h2.count[root := 1];
    ImageRecords(root, c, PagesFor(size));
    ImageTables(root, c, PagesFor(size));
    RootStays(root, c, PagesFor(size));
    ClaimsKeep(g, h2.count);
  }

  lemma RootStays(root: int, c: Counts, n: nat)
    ensures Key(0, 0) in WithImage(root, c, n).space.nodes
  {
    var g := Mapping(NewSpace(root), c);
    hide MapPages;
    MapPagesExtends(g, USER_MAX - 4096, 1);
    MapPagesExtends(WithStack(root, c), 0, n);
  }

  lemma CreateHeap(h: Heap, size: nat, x: int)
    requires CanCreate(h, size)
    ensures var c := Create(h, size);
      && GoodHeap(c.heap) && IsLive(c.heap, c.slot) && !IsLive(h, c.slot)
      && (IsLive(c.heap, x) <==> IsLive(h, x) || x == c.slot)
      && (IsLive(h, x) ==> SizeAt(c.heap, x) == SizeAt(h, x))
  {
    var h1 := HeapWithStack(h);
    hide GoodHeap, CanCreate, Malloc, CanMalloc, FreePages, PagesFor, Create, Claims, UsedCountsKept, WithImage,
         PageOf, IsSlot;
    var h2, root, g := CreateParts(h, size);
    GoodWithStack(h);
    MallocKeeps(h1, MM_STRUCT_SIZE, x);
    MallocKeeps(h1, MM_STRUCT_SIZE, Create(h, size).slot);
    CountsTaken(h2, g.count);
  }

  lemma GoodWithStack(h: Heap)
    requires |h.count| == PAGING_PAGES && FreePages(h.count) > 0 && CanMalloc(HeapWithStack(h), MM_STRUCT_SIZE)
    ensures GoodHeap(HeapWithStack(h))
  {
  }

  /** delete_process, which gives back what the record arrays name. */
  ghost function DeleteProc(s: System, pid: nat): System
    requires pid < |s.procs| && IsRecords(s.procs[pid].records)
  {
    var q := s.procs[pid];
    s.(heap := s.heap.(count := DropRefs(s.heap.count, ReleasedPages(q.records, q.stack))),
       procs := s.procs[pid := q.(alive := false)])
  }

  lemma TreeOfProc(s: System, pid: nat)
    requires OneOwner(s) && pid < |s.procs| && s.procs[pid].alive
    ensures var q := s.procs[pid];
      && Injective(q.space.nodes) && Allocated(q.space.nodes, s.heap.count)
      && IsPfn(q.stack) && s.heap.count[q.stack] == 1
      && (forall k :: k in q.space.nodes ==> q.space.nodes[k] != q.stack)
  {
    var q := s.procs[pid];
    assert Owns(s, StackPage(pid), q.stack);
    forall k | k in q.space.nodes
      ensures Owns(s, TreePage(pid, k), q.space.nodes[k])
    {
    }
    forall k, j | k in q.space.nodes && j in q.space.nodes && q.space.nodes[k] == q.space.nodes[j]
      ensures k == j
    {
      assert TreePage(pid, k) == TreePage(pid, j);
    }
  }

  /** The records of a live process name different pages of its own tree. */
  ghost predicate OwnDelete(s: System, pid: nat) {
    pid < |s.procs| && IsRecords(s.procs[pid].records) && NamesOwn(s.procs[pid].records, s.procs[pid].space)
  }

  /** Exactly the stack page and the pages named are given back. */
  lemma DeleteCounts(s: System, pid: nat, p: int)
    requires OneOwner(s) && OwnDelete(s, pid) && s.procs[pid].alive && IsPfn(p)
    ensures var q := s.procs[pid];
      DeleteProc(s, pid).heap.count[p] == if p == q.stack || IsNamed(q, p) then 0 else s.heap.count[p]
  {
    var q := s.procs[pid];
    TreeOfProc(s, pid);
    DeleteReleases(q.records, q.space, s.heap.count, q.stack, p);
  }

  lemma DeleteOwns(s: System, pid: nat)
    requires OneOwner(s) && OwnDelete(s, pid) && s.procs[pid].alive
    ensures OneOwner(DeleteProc(s, pid))
  {
    var q, s' := s.procs[pid], DeleteProc(s, pid);
    forall p | IsPfn(p)
      ensures s'.heap.count[p] == s.heap.count[p] || s'.heap.count[p] == 0
    {
      DeleteCounts(s, pid, p);
    }
    forall o, p
      ensures Owns(s', o, p) <==> Owns(s, o, p) && IsPfn(p) && s'.heap.count[p] != 0
    {
      if Owns(s, o, p) {
        DeleteCounts(s, pid, p);
        LosesOwner(s, pid, o, p);
      }
    }
    Shrunk(s, s');
  }

  /** The owners that go are those whose page is given back. */
  lemma LosesOwner(s: System, pid: nat, o: Owner, p: int)
    requires OneOwner(s) && OwnDelete(s, pid) && s.procs[pid].alive && Owns(s, o, p)
    ensures Owns(DeleteProc(s, pid), o, p) <==> p != s.procs[pid].stack && !IsNamed(s.procs[pid], p)
  {
    var q := s.procs[pid];
    assert Owns(s, StackPage(pid), q.stack);
    if IsNamed(q, p) {
      var pages := NamedPages(q.records);
      var i :| 0 <= i < |pages| && pages[i] == p;
      assert IsNode(q.space.nodes, pages[i]);
      var k :| k in q.space.nodes && q.space.nodes[k] == p;
      assert Owns(s, TreePage(pid, k), p);
    }
    hide NamedPages, DropRefs, ReleasedPages;
  }

  /** Deleting a process leaves each page in use with one owner if, and only if, its records name different pages of
      its tree: one they name twice, or that is the stack, a free one or another owner's, ends with a wrong count. */
  lemma DeleteOwnsIff(s: System, pid: nat)
    requires OneOwner(s) && pid < |s.procs| && s.procs[pid].alive && IsRecords(s.procs[pid].records)
    requires Exist(ReleasedPages(s.procs[pid].records, s.procs[pid].stack))
    ensures OneOwner(DeleteProc(s, pid)) <==> OwnDelete(s, pid)
  {
    if OwnDelete(s, pid) {
      DeleteOwns(s, pid);
    }
    if OneOwner(DeleteProc(s, pid)) {
      var pages := NamedPages(s.procs[pid].records);
      forall i | 0 <= i < |pages|
        ensures IsNode(s.procs[pid].space.nodes, pages[i])
        ensures multiset(ReleasedPages(s.procs[pid].records, s.procs[pid].stack))[pages[i]] == 1
      {
        NamedIsOwn(s, pid, i);
      }
      NamedOnce(pages, s.procs[pid].stack);
    }
  }

  lemma NamedOnce(pages: seq<int>, stack: int)
    requires forall i :: 0 <= i < |pages| ==> multiset(pages + [stack])[pages[i]] == 1
    ensures forall i, j :: 0 <= i < j < |pages| ==> pages[i] != pages[j]
  {
    var r := pages + [stack];
    forall i, j | 0 <= i < j < |pages|
      ensures pages[i] != pages[j]
    {
      assert r[i] == pages[i] && r[j] == pages[j];
      if pages[i] == pages[j] {
        TwiceIn(r, i, j);
      }
    }
  }

  lemma NamedIsOwn(s: System, pid: nat, i: int)
    requires OneOwner(s) && pid < |s.procs| && s.procs[pid].alive && IsRecords(s.procs[pid].records)
    requires Exist(ReleasedPages(s.procs[pid].records, s.procs[pid].stack)) && OneOwner(DeleteProc(s, pid))
    requires 0 <= i < |NamedPages(s.procs[pid].records)|
    ensures var q := s.procs[pid]; var p := NamedPages(q.records)[i];
      IsNode(q.space.nodes, p) && multiset(ReleasedPages(q.records, q.stack))[p] == 1
  {
    var q, s' := s.procs[pid], DeleteProc(s, pid);
    var named, pages := NamedPages(q.records), ReleasedPages(q.records, q.stack);
    var p := named[i];
    hide NamedPages, DropRefs;
    assert pages == named + [q.stack] && pages[i] == p && pages[|named|] == q.stack;
    var m := multiset(pages)[p];
    assert p in multiset(pages);
    DropRefsCounts(s.heap.count, pages, p);
    OwnerSurvives(s, pid, p, m);
    if p == q.stack {
      TwiceIn(pages, i, |named|);
    }
  }

  /** What the owner of a page given back `m` times must have been. */
  lemma OwnerSurvives(s: System, pid: nat, p: int, m: nat)
    requires OneOwner(s) && pid < |s.procs| && s.procs[pid].alive && IsRecords(s.procs[pid].records)
    requires OneOwner(DeleteProc(s, pid)) && IsPfn(p) && m >= 1
    requires DeleteProc(s, pid).heap.count[p] == s.heap.count[p] - m
    ensures m == 1 && (p == s.procs[pid].stack || IsNode(s.procs[pid].space.nodes, p))
  {
    var s' := DeleteProc(s, pid);
    AtMostOne(s, p);
    AtMostOne(s', p);
    hide NamedPages, DropRefs, ReleasedPages;
    var o :| Owns(s, o, p);
    assert !Owns(s', o, p);
  }

  lemma AtMostOne(s: System, p: int)
    requires OneOwner(s) && IsPfn(p)
    ensures s.heap.count[p] == 0 || s.heap.count[p] == 1
  {
    hide Owns;
  }

  // ---------------------------------------------------------------- runs

  /** `before` is what the slot of a new process holds when copy_process gets it. */
  datatype Event =
    | EMalloc(len: nat)
    | EFree(obj: int)
    | EThread
    | ECreate(size: nat, before: Records)
    | EDelete(pid: nat)

  ghost predicate Possible(s: System, e: Event) {
    match e
    case EMalloc(len) => CanMalloc(s.heap, len)
    case EFree(obj) =>
      GoodHeap(s.heap) && IsLive(s.heap, obj) && forall i :: 0 <= i < |s.procs| ==> s.procs[i].slot != obj
    case EThread => FreePages(s.heap.count) > 0
    case ECreate(size, before) => CanCreate(s.heap, size) && IsRecords(before)
    case EDelete(pid) =>
      && pid < |s.procs| && s.procs[pid].alive && IsRecords(s.procs[pid].records)
      && Exist(ReleasedPages(s.procs[pid].records, s.procs[pid].stack))
  }

  ghost function Next(s: System, e: Event): System
    requires Possible(s, e)
  {
    match e
    case EMalloc(len) => s.(heap := Malloc(s.heap, len).0)
    case EFree(obj) => s.(heap := Free(s.heap, obj))
    case EThread => TakeKernelPage(s)
    case ECreate(size, before) =>
      AddProc(s, Create(s.heap, size), size, CreatedRecords(s.heap, size, before))
    case EDelete(pid) => DeleteProc(s, pid)
  }

  /** Every call keeps each page in use with one owner, but for the deletion of a process whose records name
      anything else than different pages of its tree. */
  lemma NextKeepsIff(s: System, e: Event)
    requires Inv(s) && Possible(s, e)
    ensures Inv(Next(s, e)) <==> (e.EDelete? ==> OwnDelete(s, e.pid))
  {
    hide Inv, Next, Possible, OneOwner;
    if e.EDelete? {
      DeleteIff(s, e.pid);
    } else {
      NextKeeps(s, e);
    }
  }

  lemma DeleteIff(s: System, pid: nat)
    requires Inv(s) && Possible(s, EDelete(pid))
    ensures Inv(Next(s, EDelete(pid))) <==> OwnDelete(s, pid)
  {
    hide GoodHeap, SlotsHeld, GoodProc, OwnDelete;
    DeleteOwnsIff(s, pid);
    if OwnDelete(s, pid) {
      DeleteKeeps(s, pid);
    }
  }

  lemma NextKeeps(s: System, e: Event)
    requires Inv(s) && Possible(s, e) && (e.EDelete? ==> OwnDelete(s, e.pid))
    ensures Inv(Next(s, e))
  {
    match e
    case EMalloc(len) =>
      MallocOwns(s, len);
      MallocKeeps(s.heap, len, 0);
      forall x { MallocKeeps(s.heap, len, x); }
    case EFree(obj) =>
      FreeOwns(s, obj);
      FreeKeeps(s.heap, obj, 0);
      forall x { FreeKeeps(s.heap, obj, x); }
    case EThread =>
      TakeOwns(s);
      CountsTaken(s.heap, TakeKernelPage(s).heap.count);
    case ECreate(size, before) =>
      CreateKeeps(s, size, CreatedRecords(s.heap, size, before));
    case EDelete(pid) =>
      DeleteKeeps(s, pid);
  }

  lemma CreateKeeps(s: System, size: nat, r: Records)
    requires Inv(s) && CanCreate(s.heap, size) && IsRecords(r)
    ensures Inv(AddProc(s, Create(s.heap, size), size, r))
  {
    hide Create, CanCreate, GoodHeap, IsLive, GoodProc, OneOwner, PageOf;
    var c := Create(s.heap, size);
    CreateOwns(s, size, r);
    CreateGood(s.heap, size, r);
    CreateHeap(s.heap, size, c.slot);
    forall i | 0 <= i < |s.procs|
      ensures IsLive(c.heap, s.procs[i].slot) && s.procs[i].slot != c.slot
    {
      CreateHeap(s.heap, size, s.procs[i].slot);
    }
  }

  lemma DeleteKeeps(s: System, pid: nat)
    requires Inv(s) && OwnDelete(s, pid) && s.procs[pid].alive
    ensures Inv(DeleteProc(s, pid))
  {
    DeleteOwns(s, pid);
    HeapSurvives(s, DeleteProc(s, pid));
    hide GoodHeap, OneOwner, IsLive, PageOf, TablesRecorded, PagesListed, PagesRecorded, DropRefs, NamesOwn;
  }

  /** No bucket or descriptor page is given back. */
  lemma HeapSurvives(s: System, s': System)
    requires GoodHeap(s.heap) && OneOwner(s') && s'.heap == s.heap.(count := s'.heap.count)
    ensures GoodHeap(s'.heap) && forall x :: IsLive(s'.heap, x) <==> IsLive(s.heap, x)
  {
    hide OwnsNode, GoodBucket, Distinct, PageOf, IsSlot;
    forall p | p in s.heap.buckets
      ensures IsPfn(p) && s'.heap.count[p] == 1
    {
      assert Owns(s', BucketPage, p);
    }
    forall p | p in s.heap.descPages
      ensures IsPfn(p) && s'.heap.count[p] == 1
    {
      var i :| 0 <= i < |s.heap.descPages| && s.heap.descPages[i] == p;
      assert Owns(s', DescPage(i), p);
    }
  }

  ghost predicate PossibleRun(s: System, es: seq<Event>)
    decreases |es|
  {
    es == [] || (Possible(s, es[0]) && PossibleRun(Next(s, es[0]), es[1..]))
  }
  ghost function After(s: System, es: seq<Event>): System
    requires PossibleRun(s, es)
    decreases |es|
  {
    if es == [] then s else After(Next(s, es[0]), es[1..])
  }

  /** Nothing is allocated yet. */
  ghost predicate IsBoot(s: System) {
    && |s.heap.count| == PAGING_PAGES && |s.heap.chains| == NR_SIZES
    && (forall p :: IsPfn(p) ==> s.heap.count[p] == 0)
    && (forall c :: 0 <= c < NR_SIZES ==> s.heap.chains[c] == [])
    && s.heap.buckets == map[] && s.heap.spare == 0 && s.heap.descPages == []
    && s.procs == [] && s.kept == []
  }

  /** What the slot of a new process holds fits. */
  ghost predicate Fits(s: System, e: Event)
    requires Possible(s, e)
  {
    e.ECreate? ==> SlotFits(e.before, Create(s.heap, e.size).space)
  }
  ghost predicate FittingRun(s: System, es: seq<Event>)
    requires PossibleRun(s, es)
    decreases |es|
  {
    es == [] || (Fits(s, es[0]) && FittingRun(Next(s, es[0]), es[1..]))
  }

  /** In every state reached by creating processes in slots that fit, every page in use has exactly one owner, and
      the records of every process are right. */
  lemma EveryPageOwned(s: System, es: seq<Event>)
    requires IsBoot(s) && PossibleRun(s, es) && FittingRun(s, es)
    ensures Inv(After(s, es)) && AllRecorded(After(s, es))
  {
    hide Inv, PossibleRun, FittingRun, After, AllRecorded;
    BootOwned(s);
    RunKeepsOwners(s, es);
  }

  lemma BootOwned(s: System)
    requires IsBoot(s)
    ensures Inv(s) && AllRecorded(s)
  {
  }

  lemma {:induction false} RunKeepsOwners(s: System, es: seq<Event>)
    requires Inv(s) && AllRecorded(s) && PossibleRun(s, es) && FittingRun(s, es)
    ensures Inv(After(s, es)) && AllRecorded(After(s, es))
    decreases |es|
  {
    hide Inv, Possible, Next, Fits, AllRecorded;
    if es != [] {
      FittingKeeps(s, es[0]);
      RunKeepsOwners(Next(s, es[0]), es[1..]);
    }
  }

  lemma FittingKeeps(s: System, e: Event)
    requires Inv(s) && AllRecorded(s) && Possible(s, e) && Fits(s, e)
    ensures Inv(Next(s, e)) && AllRecorded(Next(s, e)) && (e.EDelete? ==> OwnDelete(s, e.pid))
  {
    hide GoodHeap, OneOwner, SlotsHeld, Holds, SlotFits, Create, CreatedRecords, Malloc, Free, DropRefs, CanCreate,
         CanMalloc, NamesOwn;
    match e
    case EDelete(pid) =>
      RightRecordsNameOwn(s, pid);
      NextKeeps(s, e);
    case ECreate(size, before) =>
      CreatedRightIff(s.heap, size, before);
      NextKeeps(s, e);
    case _ =>
      NextKeeps(s, e);
  }

  /** Records that are right name pages of their own. */
  lemma RightRecordsNameOwn(s: System, pid: nat)
    requires Inv(s) && pid < |s.procs| && s.procs[pid].alive && Holds(s.procs[pid].records, s.procs[pid].space)
    ensures OwnDelete(s, pid)
  {
    TreeOfProc(s, pid);
    RecordedNamesOwn(s.procs[pid].records, s.procs[pid].space);
  }

  /** Page `p` has an owner, and no reference is left. */
  ghost predicate LostPage(s: System, p: int) {
    |s.heap.count| == PAGING_PAGES && IsPfn(p) && s.heap.count[p] <= 0 && exists o :: Owns(s, o, p)
  }

  /** Deleting the process takes page `p` from an owner. */
  ghost predicate GivesAway(s: System, pid: nat, p: int) {
    !OwnDelete(s, pid) && (Possible(s, EDelete(pid)) ==> LostPage(Next(s, EDelete(pid)), p))
  }

  /** A process is created in a slot whose element `i` of vma names a page that has an owner: deleting the process
      gives that page back while its owner still has it. Every `i` up to the number of pages to record will do. */
  lemma ForeignPageGivenBack(s: System, size: nat, before: Records, i: int, p: int)
    requires Inv(s) && Possible(s, ECreate(size, before))
    requires 0 <= i < MAX_USER_PAGES && i <= PagesFor(size) + 1
    requires before.vma[i].pa == PfnToPa(p) && exists o :: Owns(s, o, p)
    ensures var s' := Next(s, ECreate(size, before)); Inv(s') && GivesAway(s', |s.procs|, p)
  {
    var e, pid, r := ECreate(size, before), |s.procs|, CreatedRecords(s.heap, size, before);
    CreatedLast(s, size, before);
    hide Inv, CanCreate, Create, CreatedRecords, NamedPages, DropRefs, Next, Possible, OneOwner, NamesOwn, IsNode,
         Owns, LostPage;
    NextKeeps(s, e);
    OwnedIsUsed(s, p);
    DirtyNamed(s.heap, size, before, i);
    assert PaToPfn(PfnToPa(p)) == p;
    UsedElsewhere(s.heap, size, p);
    NotOwn(r, Create(s.heap, size).space, p);
    if Possible(Next(s, e), EDelete(pid)) {
      GivenBack(Next(s, e), pid, p);
    }
  }

  lemma CreatedLast(s: System, size: nat, before: Records)
    requires Possible(s, ECreate(size, before))
    ensures CanCreate(s.heap, size) && IsRecords(before)
    ensures var s1, c := Next(s, ECreate(size, before)), Create(s.heap, size);
      && s1.heap == c.heap && |s1.procs| == |s.procs| + 1
      && s1.procs[|s.procs|] == Proc(c.stack, c.slot, c.space, size, CreatedRecords(s.heap, size, before), true)
  {
    hide CanCreate, Create, CreatedRecords;
  }

  lemma OwnedIsUsed(s: System, p: int)
    requires Inv(s) && exists o :: Owns(s, o, p)
    ensures IsPfn(p) && |s.heap.count| == PAGING_PAGES && s.heap.count[p] == 1
  {
    hide Owns;
  }

  /** A page in use is none of those a new process gets. */
  lemma UsedElsewhere(h: Heap, size: nat, p: int)
    requires CanCreate(h, size) && IsPfn(p) && h.count[p] == 1
    ensures var c := Create(h, size);
      !IsNode(c.space.nodes, p) && c.stack != p && |c.heap.count| == PAGING_PAGES && c.heap.count[p] == 1
  {
    hide GoodHeap, Malloc, CanMalloc, WithImage, FreePages, Create;
    var h2, root, g := CreateParts(h, size);
    StackTaken(h, size);
    FreePagesPositive(h.count);
  }

  lemma NotOwn(r: Records, s: Space, p: int)
    requires IsRecords(r) && p in NamedPages(r) && !IsNode(s.nodes, p)
    ensures !NamesOwn(r, s)
  {
    hide NamedPages, IsNode;
    var pages := NamedPages(r);
    var i :| 0 <= i < |pages| && pages[i] == p;
    assert !IsNode(s.nodes, pages[i]);
  }

  lemma GivenBack(s: System, pid: nat, p: int)
    requires Inv(s) && Possible(s, EDelete(pid)) && IsPfn(p) && s.heap.count[p] == 1
    requires p in NamedPages(s.procs[pid].records)
    requires p != s.procs[pid].stack && !IsNode(s.procs[pid].space.nodes, p)
    ensures LostPage(Next(s, EDelete(pid)), p)
  {
    var q, s' := s.procs[pid], Next(s, EDelete(pid));
    CountDrops(s, pid, p);
    hide NamedPages, ReleasedPages, DropRefs, GoodHeap, SlotsHeld, GoodProc, IsNamed;
    var o :| Owns(s, o, p);
    assert Owns(s', o, p);
  }

  lemma CountDrops(s: System, pid: nat, p: int)
    requires Possible(s, EDelete(pid)) && IsPfn(p) && |s.heap.count| == PAGING_PAGES
    requires p in NamedPages(s.procs[pid].records)
    ensures Next(s, EDelete(pid)).heap.count[p] <= s.heap.count[p] - 1
  {
    var q := s.procs[pid];
    var pages := ReleasedPages(q.records, q.stack);
    hide NamedPages, DropRefs;
    assert pages == NamedPages(q.records) + [q.stack];
    assert p in pages && p in multiset(pages);
    DropRefsCounts(s.heap.count, pages, p);
  }

  /** Address spaces never share a page. */
  lemma SpacesApart(s: System, i: nat, j: nat)
    requires OneOwner(s) && i < |s.procs| && j < |s.procs| && i != j && s.procs[i].alive && s.procs[j].alive
    ensures DisjointTrees(s.procs[i].space.nodes, s.procs[j].space.nodes)
  {
    var a, b := s.procs[i].space.nodes, s.procs[j].space.nodes;
    forall k, l | k in a && l in b && a[k] == b[l]
      ensures false
    {
      assert Owns(s, TreePage(i, k), a[k]) && Owns(s, TreePage(j, l), a[k]);
    }
  }

  /** A deleted process whose records were right keeps its top-level table and its mm_struct, and nothing else if,
      and only if, its image had at most fifteen pages. */
  lemma LeftBehind(s: System, pid: nat)
    requires Inv(s) && pid < |s.procs| && !s.procs[pid].alive
    requires Holds(s.procs[pid].records, s.procs[pid].space)
    ensures IsLive(s.heap, s.procs[pid].slot)
    ensures Owns(s, TreePage(pid, Key(0, 0)), s.procs[pid].space.nodes[Key(0, 0)])
    ensures (forall o, p :: Owns(s, o, p) && (o == StackPage(pid) || (o.TreePage? && o.pid == pid)) ==>
               o == TreePage(pid, Key(0, 0)))
      <==> PagesFor(s.procs[pid].size) < MAX_USER_PAGES
  {
    var q := s.procs[pid];
    RecordedNamesOwn(q.records, q.space);
    assert forall i :: 0 <= i < |q.space.vma| ==> VmaKey(q.space.vma[i]).level == 4;
    if !PagesRecorded(q.space) {
      var k :| k in q.space.nodes && k.level == 4
        && !exists i :: 0 <= i < |q.space.vma| && VmaKey(q.space.vma[i]) == k;
      assert Owns(s, TreePage(pid, k), q.space.nodes[k]);
    }
  }
}
