/** kmalloc and free_s as the source writes them, over linked descriptors and free lists threaded through
    the free objects, proved to do what module Heap says. */
module Kmalloc {
  import opened PhysMem
  import opened Heap

  class BucketDesc {
    var page: int
    var next: BucketDesc?
    var freeptr: int
    var refcnt: int
    var bucketSize: int
    ghost var inChain: bool

    constructor ()
      ensures !inChain && next == null
    {
      page, next, freeptr, refcnt, bucketSize, inChain := 0, null, 0, 0, 0, false;
    }
  }

  /** A free list in memory: every free object starts with the address of the next one. */
  ghost predicate Threaded(m: Memory, ptr: int, free: seq<int>) {
    && ptr == (if free == [] then 0 else free[0])
    && (forall i :: 0 <= i < |free| ==> InRam(free[i]))
    && forall i {:trigger m[WordIndex(free[i])]} :: 0 <= i < |free| ==>
         m[WordIndex(free[i])] == if i + 1 < |free| then free[i + 1] else 0
  }

  /** Memory of the pages in use before is untouched. */
  ghost predicate UsedPagesKept(m: Memory, m': Memory, c: Counts) {
    forall q :: IsPfn(q) && c[q] != 0 ==> SamePage(m, m', q)
  }

  /** Memory differs at most in the word at address `a`. */
  ghost predicate OnlyWord(m: Memory, m': Memory, a: int) {
    forall w :: 0 <= w < PAGING_PAGES * WORDS && w != WordIndex(a) ==> m'[w] == m[w]
  }

  /** Word `w` lies in the live object `x`. */
  ghost predicate InObject(h: Heap, x: int, w: int)
    requires IsLive(h, x)
  {
    WordIndex(x) <= w < WordIndex(x) + SizeAt(h, x) / 8
  }

  /** Behind its first word, the live object `x` is clear. */
  ghost predicate ObjectClear(m: Memory, h: Heap, x: int) {
    IsLive(h, x) && forall w :: InObject(h, x, w) && w != WordIndex(x) && 0 <= w < PAGING_PAGES * WORDS ==> m[w] == 0
  }

  /** A list depends on its own page only. */
  lemma ThreadedKept(m: Memory, m': Memory, page: int, b: Bucket, ptr: int)
    requires IsPfn(page) && 0 <= b.cls < NR_SIZES
    requires forall i :: 0 <= i < |b.free| ==> IsSlot(page, b.cls, b.free[i])
    requires SamePage(m, m', page) && Threaded(m, ptr, b.free)
    ensures Threaded(m', ptr, b.free)
  {
    forall i | 0 <= i < |b.free|
      ensures m'[WordIndex(b.free[i])] == m[WordIndex(b.free[i])]
    {
      SlotWord(page, b.cls, b.free[i]);
      var w := WordIndex(b.free[i]) - page * WORDS;
      assert Entry(m', page, w) == Entry(m, page, w);
    }
  }

  /** A slot starts at a word of its page. */
  lemma SlotWord(page: int, c: int, a: int)
    requires IsPfn(page) && 0 <= c < NR_SIZES && IsSlot(page, c, a)
    ensures InRam(a) && a != 0 && page * WORDS <= WordIndex(a) < (page + 1) * WORDS
  {
    var j := SlotIndex(page, c, a);
    SlotsApart(page, c, a, a);
    Eights(c, j);
    WordAt(page, j * (Size(c) / 8));
  }

  lemma Eights(c: int, j: int)
    requires 0 <= c < NR_SIZES
    ensures j * Size(c) == 8 * (j * (Size(c) / 8))
  {
    match c
    case 0 => case 1 => case 2 => case 3 => case 4 => case 5 => case 6 => case 7 => case 8 =>
  }

  lemma WordAt(page: int, w: int)
    requires IsPfn(page)
    ensures var a := PageVa(page) + 8 * w;
      0 <= w < WORDS ==> InRam(a) && a != 0 && WordIndex(a) == page * WORDS + w
  {
    var a := PageVa(page) + 8 * w;
    assert a == 8 * (page * WORDS + w) + PageVa(0);
  }

  /** What the pointers stand for: the heap of module Heap, the descriptor of each bucket page, the spare
      descriptors in list order, and every descriptor there is. */
  datatype View = View(heap: Heap, desc: map<int, BucketDesc>, spares: seq<BucketDesc>, descs: set<BucketDesc>)

  ghost predicate Shape(v: View) {
    && |v.heap.chains| == NR_SIZES
    && v.desc.Keys == v.heap.buckets.Keys
    && (forall p :: p in v.desc ==> v.desc[p] in v.descs)
    && (forall p, q :: p in v.desc && q in v.desc && v.desc[p] == v.desc[q] ==> p == q)
    && (forall p :: p in v.heap.buckets ==> 0 <= v.heap.buckets[p].cls < NR_SIZES)
    && (forall c, i :: 0 <= c < NR_SIZES && 0 <= i < |v.heap.chains[c]| ==>
          v.heap.chains[c][i] in v.desc && v.desc[v.heap.chains[c][i]] in v.descs)
    && |v.spares| == v.heap.spare
    && (forall i :: 0 <= i < |v.spares| ==> v.spares[i] in v.descs)
    && (forall i, j :: 0 <= i < j < |v.spares| ==> v.spares[i] != v.spares[j])
  }

  /** The fields of descriptor `d` of bucket page `page`. */
  ghost predicate Describes(d: BucketDesc, page: int, b: Bucket)
    requires 0 <= b.cls < NR_SIZES
    reads d
  {
    d.inChain && d.page == PageVa(page) && d.bucketSize == Size(b.cls) && d.refcnt == b.refcnt
  }

  /** Chain `c`, from its head on. */
  ghost predicate ChainLinked(v: View, c: int, head: BucketDesc?)
    requires Shape(v) && 0 <= c < NR_SIZES
    reads v.descs
  {
    && head == (if v.heap.chains[c] == [] then null else v.desc[v.heap.chains[c][0]])
    && forall i {:trigger v.desc[v.heap.chains[c][i]].next} :: 0 <= i < |v.heap.chains[c]| ==>
         v.desc[v.heap.chains[c][i]].next
         == if i + 1 < |v.heap.chains[c]| then v.desc[v.heap.chains[c][i + 1]] else null
  }

  ghost predicate SparesLinked(v: View, head: BucketDesc?)
    requires Shape(v)
    reads v.descs
  {
    && head == (if v.spares == [] then null else v.spares[0])
    && (forall i :: 0 <= i < |v.spares| ==> !v.spares[i].inChain)
    && (forall i {:trigger v.spares[i].next} :: 0 <= i < |v.spares| ==>
          v.spares[i].next == if i + 1 < |v.spares| then v.spares[i + 1] else null)
  }

  /** Every descriptor is on a chain or spare. */
  ghost predicate Accounted(v: View)
    reads v.descs
  {
    forall d :: d in v.descs ==>
      if d.inChain then PageOf(d.page) in v.desc && v.desc[PageOf(d.page)] == d else d in v.spares
  }

  ghost predicate Pointers(v: View)
    requires Shape(v)
    reads v.descs
  {
    && (forall p :: p in v.desc ==> Describes(v.desc[p], p, v.heap.buckets[p]))
    && Accounted(v)
  }

  ghost predicate Threads(v: View, m: Memory)
    requires Shape(v)
    reads v.descs
  {
    forall p :: p in v.desc ==> Threaded(m, v.desc[p].freeptr, v.heap.buckets[p].free)
  }

  class KernelHeap {
    const ram: Ram
    const dir: array<BucketDesc?>  // the chain fields of bucket_dir
    var freeDesc: BucketDesc?      // free_bucket_desc
    ghost var v: View

    ghost predicate Linked()
      requires dir.Length == NR_SIZES && Shape(v)
      reads this, dir, v.descs
    {
      forall c :: 0 <= c < NR_SIZES ==> ChainLinked(v, c, dir[c])
    }

    /** The pointers and fields represent v.heap. */
    ghost predicate Repr()
      reads this, dir, ram.mem, ram.count, v.descs
    {
      && ram.Valid() && dir.Length == NR_SIZES && dir as object != ram.count && dir as object != ram.mem
      && Shape(v)
      && v.heap.count == ram.Count()
      && Pointers(v) && Threads(v, ram.Mem()) && Linked() && SparesLinked(v, freeDesc)
    }

    ghost predicate Valid()
      reads this, dir, ram.mem, ram.count, v.descs
    {
      Repr() && GoodHeap(v.heap)
    }

    constructor (ram: Ram)
      requires ram.Valid()
      ensures Valid() && this.ram == ram && fresh(dir)
      ensures v.heap == Empty(ram.Count()) && v.descs == {}
    {
      this.ram := ram;
      dir := new BucketDesc?[NR_SIZES](_ => null);
      freeDesc := null;
      v := View(Empty(ram.Count()), map[], [], {});
    }

    /** init_bucket_desc; the page it takes stands for the descriptors created here. */
    method InitBucketDesc()
      requires Valid() && freeDesc == null && FreePages(ram.Count()) > 0
      modifies this, ram.mem, ram.count
      ensures Valid() && v.heap == MoreDescriptors(old(v.heap)) && v.desc == old(v.desc)
      ensures fresh(v.descs - old(v.descs)) && old(v.descs) <= v.descs
      ensures UsedPagesKept(old(ram.Mem()), ram.Mem(), old(ram.Count()))
    {
      hide Threaded, GoodHeap, HighestFree, FreePages, Pointers, Accounted, Threads, ChainLinked;
      FreePagesPositive(ram.Count());
      var va, _ := ram.GetFreePage();
      var first, last;
      ghost var list;
      first, last, list := CarveDescriptors();
      last.next := freeDesc;
      freeDesc := first;
      v := View(MoreDescriptors(v.heap), v.desc, list, v.descs + set d | d in list);
      MoreDescriptorsKeeps(this);
      MoreDescriptorsGood(old(v.heap));
    }

    /** The part of kmalloc that starts a bucket page, with a descriptor at hand. */
    method StartBucket(c: int) returns (bdesc: BucketDesc)
      requires Valid() && 0 <= c < NR_SIZES && freeDesc != null && FreePages(ram.Count()) > 0
      modifies this, dir, ram.mem, ram.count, v.descs
      ensures Repr() && v.heap == AddPage(old(v.heap), c) && v.descs == old(v.descs)
      ensures forall q :: q in old(v.desc) && q in v.desc ==> v.desc[q] == old(v.desc[q])
      ensures v.heap.chains[c] != [] && bdesc == v.desc[v.heap.chains[c][0]]
      ensures UsedPagesKept(old(ram.Mem()), ram.Mem(), old(ram.Count()))
      ensures IsPfn(v.heap.chains[c][0]) && TailsClear(ram.Mem(), v.heap.chains[c][0], c)
    {
      hide Threaded, GoodHeap, FreePages, HighestFree, Pointers, Threads, ChainLinked, KernelHeap.Linked,
           UsedPagesKept, Slots, TailsClear;
      ghost var h := v.heap;
      FreePagesPositive(ram.Count());
      NewPageIsNew(h);
      bdesc := freeDesc;
      freeDesc := bdesc.next;
      ghost var p := FillBucket(ram, bdesc, c);
      bdesc.next := dir[c];
      dir[c] := bdesc;
      bdesc.inChain := true;
      v := View(AddPage(h, c), v.desc[p := bdesc], v.spares[1..], v.descs);
      AddBucketKeeps(this, c, p);
    }

    /** The part of kmalloc for a chain without free space. */
    method AddBucket(c: int) returns (bdesc: BucketDesc)
      requires Valid() && 0 <= c < NR_SIZES && FreePages(ram.Count()) >= if v.heap.spare == 0 then 2 else 1
      modifies this, dir, ram.mem, ram.count, v.descs
      ensures Repr() && v.heap == AddPage(old(v.heap), c)
      ensures forall q :: q in old(v.desc) && q in v.desc ==> v.desc[q] == old(v.desc[q])
      ensures v.heap.chains[c] != [] && bdesc == v.desc[v.heap.chains[c][0]]
      ensures fresh(v.descs - old(v.descs)) && old(v.descs) <= v.descs
      ensures UsedPagesKept(old(ram.Mem()), ram.Mem(), old(ram.Count()))
      ensures IsPfn(v.heap.chains[c][0]) && TailsClear(ram.Mem(), v.heap.chains[c][0], c)
    {
      hide Threaded, GoodHeap, FreePages, HighestFree, Pointers, Threads, ChainLinked, UsedPagesKept, TailsClear;
      ghost var h, m := v.heap, ram.Mem();
      if freeDesc == null {
        FreePagesPositive(ram.Count());
        TakePage(ram.Count(), HighestFree(ram.Count()));
        InitBucketDesc();
      } else {
        assert UsedPagesKept(m, m, ram.Count()) by { KeptAtFirst(m, ram.Count()); }
      }
      ghost var m1 := ram.Mem();
      bdesc := StartBucket(c);
      KeptOn(m, m1, ram.Mem(), h.count, if h.spare == 0 then MoreDescriptors(h).count else h.count);
    }

    /** kmalloc for a request that fits one of the sizes. */
    method Kmalloc(len: nat) returns (obj: int)
      requires Valid() && CanMalloc(v.heap, len)
      modifies this, dir, ram.mem, ram.count, v.descs
      ensures Valid() && (v.heap, obj) == Malloc(old(v.heap), len)
      ensures forall q :: q in old(v.desc) && q in v.desc ==> v.desc[q] == old(v.desc[q])
      ensures fresh(v.descs - old(v.descs)) && old(v.descs) <= v.descs
      ensures UsedPagesKept(old(ram.Mem()), ram.Mem(), old(ram.Count()))
      ensures PageOf(obj) !in old(v.heap.buckets) ==> ObjectClear(ram.Mem(), v.heap, obj)
    {
      hide GoodHeap, Pointers, Threads, SparesLinked, KernelHeap.Linked, Choose, UsedPagesKept, SlotsIn, Slots,
           TailsClear, ObjectClear;
      ghost var h := v.heap;
      var c := 0;
      while Size(c) < len
        invariant 0 <= c < NR_SIZES
        invariant forall d :: 0 <= d < c ==> Size(d) < len
        decreases NR_SIZES - c
      {
        c := c + 1;
      }
      assert c == ClassOf(len);
      ChooseGood(h, c);
      var bdesc := FindBucket(c);
      ghost var g, p := v.heap, Choose(h, c).1;
      PopValid(h, g, c, p);
      ghost var m := ram.Mem();
      obj := PopObject(bdesc, p);
      assert (v.heap, obj) == (PopFrom(g, p), g.buckets[p].free[0]) == Malloc(h, len);
      assert ram.Mem() == m;
      NewObjectClear(m, h, len, c);
    }

    /** The part of kmalloc that finds a bucket with free space, or adds one. */
    method FindBucket(c: int) returns (bdesc: BucketDesc)
      requires Valid() && 0 <= c < NR_SIZES && FreePages(ram.Count()) >= Need(v.heap, c)
      modifies this, dir, ram.mem, ram.count, v.descs
      ensures Repr() && v.heap == Choose(old(v.heap), c).0
      ensures Choose(old(v.heap), c).1 in v.desc && bdesc == v.desc[Choose(old(v.heap), c).1]
      ensures forall q :: q in old(v.desc) && q in v.desc ==> v.desc[q] == old(v.desc[q])
      ensures fresh(v.descs - old(v.descs)) && old(v.descs) <= v.descs
      ensures UsedPagesKept(old(ram.Mem()), ram.Mem(), old(ram.Count()))
      ensures v.heap != old(v.heap) ==>
        v.heap.chains[c] != [] && IsPfn(v.heap.chains[c][0]) && TailsClear(ram.Mem(), v.heap.chains[c][0], c)
    {
      hide GoodHeap, FreePages, HighestFree, Pointers, Threads, SparesLinked, KernelHeap.Linked, AddPage,
           UsedPagesKept, SlotsIn, Slots, TailsClear;
      var d := FindFree(c);
      if d == null {
        d := AddBucket(c);
      } else {
        KeptAtFirst(ram.Mem(), v.heap.count);
      }
      bdesc := d;
    }

    /** The search for a descriptor with free space. */
    method FindFree(c: int) returns (bdesc: BucketDesc?)
      requires Valid() && 0 <= c < NR_SIZES
      ensures var chain := v.heap.chains[c]; var k := FirstFree(chain, v.heap.buckets);
        bdesc == if k < |chain| then v.desc[chain[k]] else null
    {
      hide GoodHeap, Pointers, Threads, SparesLinked, Describes;
      ghost var chain, k := v.heap.chains[c], 0;
      assert ChainLinked(v, c, dir[c]);
      bdesc := dir[c];
      while bdesc != null && bdesc.freeptr == 0
        invariant 0 <= k <= |chain| && bdesc == if k < |chain| then v.desc[chain[k]] else null
        invariant FirstFree(chain, v.heap.buckets) == k + FirstFree(chain[k..], v.heap.buckets)
        decreases |chain| - k
      {
        assert bdesc == v.desc[v.heap.chains[c][k]];
        NothingFree(v, ram.Mem(), chain[k]);
        bdesc := bdesc.next;
        k := k + 1;
      }
      if k < |chain| {
        SomethingFree(v, ram.Mem(), chain[k]);
      }
    }

    /** Takes the head of a page's free list. */
    method PopObject(bdesc: BucketDesc, ghost p: int) returns (obj: int)
      requires Repr() && p in v.desc && bdesc == v.desc[p] && v.heap.buckets[p].free != []
      modifies this, bdesc
      ensures Repr() && v == old(v).(heap := PopFrom(old(v.heap), p))
      ensures obj == old(v.heap.buckets[p].free[0])
    {
      hide GoodHeap, Accounted, ChainLinked;
      ghost var free := v.heap.buckets[p].free;
      obj := bdesc.freeptr;
      bdesc.freeptr := ram.Load(obj);
      bdesc.refcnt := bdesc.refcnt + 1;
      v := v.(heap := PopFrom(v.heap, p));
      assert Threaded(ram.Mem(), bdesc.freeptr, free[1..]) by {
        ThreadedTail(ram.Mem(), obj, free);
      }
      BucketUpdated(this, p);
    }

    // -------------------------------------------------------------- free_s

    /** The search of free_s, made with interrupts on: the descriptor of the object's page, its chain,
        and the descriptor seen before it. */
    method FindObject(obj: int, size: int) returns (c: int, bdesc: BucketDesc, prev: BucketDesc?)
      requires Valid() && IsLive(v.heap, obj) && size <= SizeAt(v.heap, obj)
      ensures c == v.heap.buckets[PageOf(obj)].cls && bdesc == v.desc[PageOf(obj)]
      ensures prev == null || prev in v.descs
    {
      ghost var p := PageOf(obj);
      assert GoodBucket(p, v.heap.buckets[p]);
      hide Threaded, GoodBucket, Threads, SparesLinked, Accounted, UsedPagesKept;
      var page := obj - obj % 4096;
      PageStart(obj, p);
      c := 0;
      while true
        invariant 0 <= c <= v.heap.buckets[p].cls
        decreases NR_SIZES - c
      {
        prev := null;
        if !(Size(c) < size) {
          var d := dir[c];
          ghost var chain, i := v.heap.chains[c], 0;
          assert ChainLinked(v, c, dir[c]);
          while d != null
            invariant 0 <= i <= |chain| && d == if i < |chain| then v.desc[chain[i]] else null
            invariant prev == null || prev in v.descs
            invariant forall j :: 0 <= j < i ==> chain[j] != p
            decreases |chain| - i
          {
            OnChain(v.heap, c, chain[i]);
            assert Describes(v.desc[chain[i]], chain[i], v.heap.buckets[chain[i]]);
            SamePageVa(chain[i], p);
            if d.page == page {
              bdesc := d;
              return;
            }
            prev := d;
            assert d == v.desc[v.heap.chains[c][i]];
            d := d.next;
            i := i + 1;
          }
          assert p !in chain;
        } else {
          SizesGrow(c, v.heap.buckets[p].cls);
        }
        c := c + 1;
      }
    }

    /** The first half of the critical section: the object goes to the head of its free list. */
    method PushObject(obj: int, bdesc: BucketDesc)
      requires Valid() && IsLive(v.heap, obj) && bdesc == v.desc[PageOf(obj)]
      modifies this, ram.mem, bdesc
      ensures Repr() && v == old(v).(heap := Push(old(v.heap), obj))
      ensures bdesc.refcnt == Push(old(v.heap), obj).buckets[PageOf(obj)].refcnt
      ensures OnlyWord(old(ram.Mem()), ram.Mem(), obj)
    {
      ghost var p, m := PageOf(obj), ram.Mem();
      ghost var b := v.heap.buckets[p];
      assert GoodBucket(p, b);
      SlotWord(p, b.cls, obj);
      PushThreads(v, m, obj);
      PushShape(v, obj);
      hide GoodHeap, GoodBucket, Accounted, ChainLinked, SparesLinked, Threaded, Threads, Shape, PageOf;
      ram.Store(obj, bdesc.freeptr);
      bdesc.freeptr := obj;
      bdesc.refcnt := bdesc.refcnt - 1;
      v := v.(heap := Push(v.heap, obj));
      BucketUpdated(this, p);
    }

    /** The check that `prev` is still accurate, with the rescan when it is not. */
    method FindPrev(c: int, bdesc: BucketDesc, prev: BucketDesc?, ghost p: int) returns (pr: BucketDesc?)
      requires Repr() && GoodChains(v.heap)
      requires p in v.desc && bdesc == v.desc[p] && c == v.heap.buckets[p].cls
      requires prev == null || prev in v.descs
      ensures var chain := v.heap.chains[c]; var k := IndexOf(chain, p);
        k < |chain| && pr == if k == 0 then null else v.desc[chain[k - 1]]
    {
      hide Threads, GoodBucket, SparesLinked, Accounted, Describes;
      ghost var chain, k := v.heap.chains[c], IndexOf(v.heap.chains[c], p);
      Predecessor(this, c, p);
      pr := prev;
      if (pr != null && pr.next != bdesc) || (pr == null && dir[c] != bdesc) {
        pr := dir[c];
        ghost var i := 0;
        while pr != null && pr.next != bdesc
          invariant 0 <= i <= |chain| && pr == if i < |chain| then v.desc[chain[i]] else null
          invariant forall j :: 0 <= j < i ==> v.desc[chain[j]].next != bdesc
          decreases |chain| - i
        {
          assert ChainLinked(v, c, dir[c]) && pr == v.desc[v.heap.chains[c][i]];
          pr := pr.next;
          i := i + 1;
        }
      }
    }

    /** The second half, for a page whose last object is gone. */
    method UnlinkBucket(c: int, bdesc: BucketDesc, pr: BucketDesc?, ghost p: int)
      requires Repr() && GoodChains(v.heap) && IsPfn(p)
      requires p in v.desc && bdesc == v.desc[p] && c == v.heap.buckets[p].cls
      requires var chain := v.heap.chains[c]; var k := IndexOf(chain, p);
        k < |chain| && pr == if k == 0 then null else v.desc[chain[k - 1]]
      modifies this, dir, ram.count, v.descs
      ensures Repr()
      ensures v == View(Release(old(v.heap), p), old(v.desc) - {p}, [bdesc] + old(v.spares), old(v.descs))
    {
      hide Threads, Accounted, SparesLinked, PageVa, PageOf, Release, ChainLinked;
      ghost var v' := View(Release(v.heap, p), v.desc - {p}, [bdesc] + v.spares, v.descs);
      ReleaseCount(v.heap, p);
      Predecessor(this, c, p);
      assert bdesc.page == PageVa(p);
      hide Pointers, Describes, KernelHeap.Linked, GoodChains;
      if pr != null {
        pr.next := bdesc.next;
      } else {
        dir[c] := bdesc.next;
      }
      PaOfPage(p);
      ram.FreePage(bdesc.page);
      assert ram.Count() == v'.heap.count;
      bdesc.next := freeDesc;
      freeDesc := bdesc;
      bdesc.inChain := false;
      v := v';
      assert Unlinked(this, c, p);
      hide Unlinked, Repr, GoodChains;
      BucketReleased(this, c, p);
    }

    /** The critical section of free_s. All it needs of the search is the right descriptor and, for
        `prev`, null or any descriptor at all. */
    method CommitFree(obj: int, c: int, bdesc: BucketDesc, prev: BucketDesc?)
      requires Valid() && IsLive(v.heap, obj)
      requires c == v.heap.buckets[PageOf(obj)].cls && bdesc == v.desc[PageOf(obj)]
      requires prev == null || prev in v.descs
      modifies this, dir, ram.mem, ram.count, v.descs
      ensures Valid() && v.heap == Free(old(v.heap), obj) && v.descs == old(v.descs)
      ensures forall q :: q in old(v.desc) && q in v.desc ==> v.desc[q] == old(v.desc[q])
      ensures OnlyWord(old(ram.Mem()), ram.Mem(), obj)
    {
      hide Pointers, Threads, SparesLinked, KernelHeap.Linked, Push, OnlyWord, Release, SamePage, PageOf, IsSlot;
      ghost var p, h := PageOf(obj), v.heap;
      PushKeepsChains(h, obj);
      FreeKeeps(h, obj, obj);
      PushObject(obj, bdesc);
      if bdesc.refcnt == 0 {
        var pr := FindPrev(c, bdesc, prev, p);
        UnlinkBucket(c, bdesc, pr, p);
      }
    }

    /** free_s, uninterrupted. */
    method FreeS(obj: int, size: int)
      requires Valid() && IsLive(v.heap, obj) && size <= SizeAt(v.heap, obj)
      modifies this, dir, ram.mem, ram.count, v.descs
      ensures Valid() && v.heap == Free(old(v.heap), obj) && v.descs == old(v.descs)
      ensures forall q :: q in old(v.desc) && q in v.desc ==> v.desc[q] == old(v.desc[q])
      ensures OnlyWord(old(ram.Mem()), ram.Mem(), obj)
    {
      var c, bdesc, prev := FindObject(obj, size);
      CommitFree(obj, c, bdesc, prev);
    }

    /** Any calls of kmalloc and free_s, one after the other. */
    method Serve(ops: seq<Op>)
      requires Valid() && Legal(v.heap, ops)
      modifies this, dir, ram.mem, ram.count, v.descs
      ensures Valid() && v.heap == Run(old(v.heap), ops)
      ensures Undisturbed(old(v), old(ram.Mem()), v, ram.Mem(), ops)
      ensures fresh(v.descs - old(v.descs)) && old(v.descs) <= v.descs
    {
      hide Repr, GoodHeap, IsLive, Malloc, Free, CanMalloc, Undisturbed, UsedPagesKept, OnlyWord;
      SameKeys(this);
      ghost var v0, m0 := v, ram.Mem();
      var i := 0;
      NothingDisturbed(v0, m0);
      while i < |ops|
        invariant 0 <= i <= |ops| && Valid() && fresh(v.descs - old(v.descs)) && old(v.descs) <= v.descs
        invariant Legal(v.heap, ops[i..]) && Run(v.heap, ops[i..]) == Run(old(v.heap), ops)
        invariant Undisturbed(v0, m0, v, ram.Mem(), ops[..i])
      {
        SameKeys(this);
        ghost var v1, m1 := v, ram.Mem();
        assert ops[i..][1..] == ops[i + 1..];
        assert CanStep(v.heap, ops[i]);
        match ops[i] {
          case OpMalloc(len) => var _ := Kmalloc(len);
          case OpFree(o) => SizePositive(v.heap, o); FreeS(o, 0);
        }
        SameKeys(this);
        assert v.heap == Step(v1.heap, ops[i]);
        StepUndisturbed(v1, m1, v, ram.Mem(), ops[i]);
        assert ops[..i + 1] == ops[..i] + [ops[i]];
        UndisturbedTwice(v0, m0, v1, m1, v, ram.Mem(), ops[..i], [ops[i]]);
        i := i + 1;
      }
      assert ops[..i] == ops;
    }

    /** free_s with any number of complete calls on other objects, made by interrupt handlers or other
        tasks, between the end of its search and its critical section. */
    method FreeSInterrupted(obj: int, size: int, others: seq<Op>)
      requires Valid() && IsLive(v.heap, obj) && size <= SizeAt(v.heap, obj)
      requires Legal(v.heap, others) && OpFree(obj) !in others
      modifies this, dir, ram.mem, ram.count, v.descs
      ensures Valid()
      ensures var h := Run(old(v.heap), others);
        GoodHeap(h) && IsLive(h, obj) && v.heap == Free(h, obj)
      ensures Undisturbed(old(v), old(ram.Mem()), v, ram.Mem(), others + [OpFree(obj)])
    {
      hide Repr, GoodHeap, IsLive, Malloc, Free, CanMalloc, UsedPagesKept, OnlyWord;
      SameKeys(this);
      ghost var v0, m0 := v, ram.Mem();
      var c, bdesc, prev := FindObject(obj, size);
      Serve(others);
      ghost var v1, m1 := v, ram.Mem();
      SameKeys(this);
      assert Stays(v0.heap, others, obj) && KeepsPlace(v0, v1, obj);
      hide Undisturbed;
      CommitFree(obj, c, bdesc, prev);
      SameKeys(this);
      StepUndisturbed(v1, m1, v, ram.Mem(), OpFree(obj));
      UndisturbedTwice(v0, m0, v1, m1, v, ram.Mem(), others, [OpFree(obj)]);
    }
  }

  /** An object from a new page is clear, but for the word that linked it. */
  lemma NewObjectClear(m: Memory, h: Heap, len: nat, c: int)
    requires CanMalloc(h, len) && c == ClassOf(len)
    requires var g := Choose(h, c).0;
      |g.chains| == NR_SIZES
        && (g != h ==> g.chains[c] != [] && IsPfn(g.chains[c][0]) && TailsClear(m, g.chains[c][0], c))
    ensures var (h', obj) := Malloc(h, len); PageOf(obj) !in h.buckets ==> ObjectClear(m, h', obj)
  {
    var (h', obj) := Malloc(h, len);
    var (g, p) := Choose(h, c);
    ChooseGood(h, c);
    MallocKeeps(h, len, obj);
    if g == h {
      assert GoodBucket(p, h.buckets[p]);
      SlotPage(p, c, obj);
    } else {
      assert obj == Slots(p, c)[0];
      SlotStep(p, c, 0);
      SlotPage(p, c, obj);
      forall w | InObject(h', obj, w) && w != WordIndex(obj) && 0 <= w < PAGING_PAGES * WORDS
        ensures m[w] == 0
      {
        assert SlotEntry(m, p, c, 0, w - WordIndex(obj)) == 0;
      }
    }
  }

  lemma SameKeys(k: KernelHeap)
    requires k.Valid()
    ensures k.ram.Valid() && k.v.heap.count == k.ram.Count()
    ensures GoodHeap(k.v.heap) && k.v.desc.Keys == k.v.heap.buckets.Keys
    ensures forall x :: IsLive(k.v.heap, x) ==> PageOf(x) in k.v.heap.buckets
  {
  }

  lemma SizePositive(h: Heap, obj: int)
    requires IsLive(h, obj)
    ensures SizeAt(h, obj) > 0
  {
  }

  // ---------------------------------------------------------------- what runs leave alone

  /** A live object that none of the calls frees. */
  ghost predicate Stays(h: Heap, ops: seq<Op>, x: int) {
    IsLive(h, x) && OpFree(x) !in ops
  }

  /** The object is live in both states, on the same chain and with the same descriptor. */
  ghost predicate KeepsPlace(v: View, v': View, x: int) {
    var p := PageOf(x);
    && IsLive(v.heap, x) && IsLive(v'.heap, x) && v'.heap.buckets[p].cls == v.heap.buckets[p].cls
    && p in v.desc && p in v'.desc && v'.desc[p] == v.desc[p]
  }

  /** A page in use that is not the allocator's. */
  ghost predicate IsForeign(h: Heap, q: int) {
    |h.count| == PAGING_PAGES && IsPfn(q) && h.count[q] != 0 && q !in h.buckets
  }

  /** Objects that none of the calls frees keep their place and every byte, and so do the pages in use that
      are not the allocator's. */
  ghost predicate Undisturbed(v: View, m: Memory, v': View, m': Memory, ops: seq<Op>) {
    && (forall x :: Stays(v.heap, ops, x) ==> KeepsPlace(v, v', x))
    && (forall x, w :: Stays(v.heap, ops, x) && InObject(v.heap, x, w) && 0 <= w < PAGING_PAGES * WORDS ==>
          m'[w] == m[w])
    && (forall q :: IsForeign(v.heap, q) ==> IsForeign(v'.heap, q) && SamePage(m, m', q))
  }

  lemma NothingDisturbed(v: View, m: Memory)
    requires v.desc.Keys == v.heap.buckets.Keys
    ensures Undisturbed(v, m, v, m, [])
  {
  }

  lemma UndisturbedTwice(v: View, m: Memory, v1: View, m1: Memory, v2: View, m2: Memory, a: seq<Op>, b: seq<Op>)
    requires Undisturbed(v, m, v1, m1, a) && Undisturbed(v1, m1, v2, m2, b)
    ensures Undisturbed(v, m, v2, m2, a + b)
  {
    hide IsLive, PageOf;
    forall x | Stays(v.heap, a + b, x)
      ensures KeepsPlace(v, v2, x)
      ensures forall w :: InObject(v.heap, x, w) && 0 <= w < PAGING_PAGES * WORDS ==> m2[w] == m[w]
    {
      assert OpFree(x) !in a && OpFree(x) !in b;
      assert Stays(v.heap, a, x) && KeepsPlace(v, v1, x) && Stays(v1.heap, b, x);
      assert forall w :: InObject(v.heap, x, w) ==> InObject(v1.heap, x, w);
    }
    forall q | IsForeign(v.heap, q)
      ensures IsForeign(v2.heap, q) && SamePage(m, m2, q)
    {
      assert IsForeign(v1.heap, q) && SamePage(m, m1, q) && SamePage(m1, m2, q);
    }
  }

  /** One call disturbs nothing. */
  lemma StepUndisturbed(v: View, m: Memory, v': View, m': Memory, op: Op)
    requires GoodHeap(v.heap) && CanStep(v.heap, op) && v'.heap == Step(v.heap, op)
    requires v.desc.Keys == v.heap.buckets.Keys && v'.desc.Keys == v'.heap.buckets.Keys
    requires forall q :: q in v.desc && q in v'.desc ==> v'.desc[q] == v.desc[q]
    requires op.OpMalloc? ==> UsedPagesKept(m, m', v.heap.count)
    requires op.OpFree? ==> OnlyWord(m, m', op.obj)
    ensures Undisturbed(v, m, v', m', [op])
  {
    var h := v.heap;
    hide Malloc, Free, GoodHeap, CanMalloc;
    forall x | Stays(h, [op], x)
      ensures KeepsPlace(v, v', x)
      ensures forall w :: InObject(h, x, w) && 0 <= w < PAGING_PAGES * WORDS ==> m'[w] == m[w]
    {
      assert op in [op];
      StepKeepsObject(h, op, x);
      ObjectKept(h, m, m', op, x);
    }
    forall q | IsForeign(h, q)
      ensures IsForeign(v'.heap, q) && SamePage(m, m', q)
    {
      StepKeeps(h, op);
      ForeignKept(h, m, m', op, q);
    }
  }

  lemma ObjectKept(h: Heap, m: Memory, m': Memory, op: Op, x: int)
    requires GoodHeap(h) && CanStep(h, op) && IsLive(h, x) && op != OpFree(x)
    requires op.OpMalloc? ==> UsedPagesKept(m, m', h.count)
    requires op.OpFree? ==> OnlyWord(m, m', op.obj)
    ensures forall w :: InObject(h, x, w) && 0 <= w < PAGING_PAGES * WORDS ==> m'[w] == m[w]
  {
    var p := PageOf(x);
    var c := h.buckets[p].cls;
    assert GoodBucket(p, h.buckets[p]);
    SlotWord(p, c, x);
    SlotsApart(p, c, x, x);
    forall w | InObject(h, x, w) && 0 <= w < PAGING_PAGES * WORDS
      ensures m'[w] == m[w]
    {
      match op
      case OpMalloc(_) =>
        assert SamePage(m, m', p);
        assert Entry(m', p, w - p * WORDS) == Entry(m, p, w - p * WORDS);
      case OpFree(o) =>
        var q := PageOf(o);
        assert GoodBucket(q, h.buckets[q]);
        SlotWord(q, h.buckets[q].cls, o);
        LiveApart(h, x, o);
    }
  }

  lemma ForeignKept(h: Heap, m: Memory, m': Memory, op: Op, q: int)
    requires GoodHeap(h) && CanStep(h, op) && IsForeign(h, q)
    requires op.OpMalloc? ==> UsedPagesKept(m, m', h.count)
    requires op.OpFree? ==> OnlyWord(m, m', op.obj)
    ensures IsForeign(Step(h, op), q) && SamePage(m, m', q)
  {
    match op
    case OpMalloc(len) =>
      ChooseGood(h, ClassOf(len));
    case OpFree(o) =>
      FreeGivesBack(h, o);
      var p := PageOf(o);
      SlotWord(p, h.buckets[p].cls, o);
  }

  /** A live object keeps its page and class through every call that is not its own free_s. */
  lemma StepKeepsObject(h: Heap, op: Op, obj: int)
    requires CanStep(h, op) && GoodHeap(h) && IsLive(h, obj) && op != OpFree(obj)
    ensures var h' := Step(h, op);
      && PageOf(obj) in h.buckets && PageOf(obj) in h'.buckets
      && IsLive(h', obj) && h'.buckets[PageOf(obj)].cls == h.buckets[PageOf(obj)].cls
  {
    match op
    case OpMalloc(len) =>
      MallocKeeps(h, len, obj);
      SizesGrow(Malloc(h, len).0.buckets[PageOf(obj)].cls, h.buckets[PageOf(obj)].cls);
      SizesGrow(h.buckets[PageOf(obj)].cls, Malloc(h, len).0.buckets[PageOf(obj)].cls);
    case OpFree(o) =>
      FreeKeeps(h, o, obj);
      SizesGrow(Free(h, o).buckets[PageOf(obj)].cls, h.buckets[PageOf(obj)].cls);
      SizesGrow(h.buckets[PageOf(obj)].cls, Free(h, o).buckets[PageOf(obj)].cls);
  }

  lemma PushKeepsChains(h: Heap, obj: int)
    requires GoodHeap(h) && IsLive(h, obj)
    ensures GoodChains(Push(h, obj)) && PageOf(obj) in h.buckets && IsPfn(PageOf(obj))
    ensures Push(h, obj).buckets.Keys == h.buckets.Keys
    ensures Push(h, obj).buckets[PageOf(obj)].cls == h.buckets[PageOf(obj)].cls
  {
    assert GoodBucket(PageOf(obj), h.buckets[PageOf(obj)]);
  }

  /** How unlinking moves the pointers: whoever pointed to the descriptor of `p` now points to its
      successor, and the descriptor heads the spare list. */
  twostate predicate Unlinked(k: KernelHeap, new c: int, new p: int)
    requires old(Shape(k.v)) && p in old(k.v.desc) && k.dir.Length == NR_SIZES && 0 <= c < NR_SIZES
    requires k.v.descs == old(k.v.descs)
    reads k, k.dir, k.v.descs
  {
    var b := old(k.v.desc[p]);
    && b.next == old(k.freeDesc) && !b.inChain && k.freeDesc == b
    && (forall e :: 0 <= e < NR_SIZES ==>
          k.dir[e] == if e == c && old(k.dir[e]) == b then old(b.next) else old(k.dir[e]))
    && (forall d :: d in old(k.v.descs) && d != b ==>
          && d.next == (if old(d.next) == b then old(b.next) else old(d.next))
          && d.page == old(d.page) && d.freeptr == old(d.freeptr) && d.refcnt == old(d.refcnt)
          && d.bucketSize == old(d.bucketSize) && d.inChain == old(d.inChain))
  }

  twostate lemma BucketReleased(k: KernelHeap, new c: int, new p: int)
    requires old(k.Repr()) && GoodChains(old(k.v.heap)) && IsPfn(p)
    requires p in old(k.v.desc) && c == old(k.v.heap.buckets[p].cls)
    requires k.v == View(Release(old(k.v.heap), p), old(k.v.desc) - {p},
                         [old(k.v.desc[p])] + old(k.v.spares), old(k.v.descs))
    requires Unlinked(k, c, p)
    requires k.ram.Valid() && k.ram.Count() == k.v.heap.count && k.ram.Mem() == old(k.ram.Mem())
    ensures k.Repr()
  {
    ReleasedShape(old(k.v), k.v, p);
    ReleasedLinks(k, c, p);
    ReleasedSpares(k, c, p);
    hide ChainLinked, SparesLinked, GoodChains, Release;
    var v, v' := old(k.v), k.v;
    assert v'.heap.buckets == v.heap.buckets - {p} by { ReleaseCount(v.heap, p); }
    forall q | q in v'.desc
      ensures Describes(v'.desc[q], q, v'.heap.buckets[q])
        && Threaded(k.ram.Mem(), v'.desc[q].freeptr, v'.heap.buckets[q].free)
    {
      assert q in v.desc && v'.desc[q] == v.desc[q] && v.desc[q] != v.desc[p];
    }
    ReleasedAccounted(k, c, p);
  }

  lemma ReleasedShape(v: View, v': View, p: int)
    requires Shape(v) && p in v.desc && GoodChains(v.heap) && 0 <= p < |v.heap.count|
    requires v' == View(Release(v.heap, p), v.desc - {p}, [v.desc[p]] + v.spares, v.descs)
    requires v.desc[p] !in v.spares
    ensures Shape(v')
  {
    RemoveKeeps(v.heap.chains[v.heap.buckets[p].cls], p);
  }

  twostate lemma ReleasedSpares(k: KernelHeap, new c: int, new p: int)
    requires old(Shape(k.v)) && Shape(k.v) && old(SparesLinked(k.v, k.freeDesc)) && k.dir.Length == NR_SIZES
    requires 0 <= c < NR_SIZES && p in old(k.v.desc) && k.v.descs == old(k.v.descs) && Unlinked(k, c, p)
    requires k.v.spares == [old(k.v.desc[p])] + old(k.v.spares) && old(k.v.desc[p].inChain)
    ensures SparesLinked(k.v, k.freeDesc)
  {
    var b, s, s' := old(k.v.desc[p]), old(k.v.spares), k.v.spares;
    forall i {:trigger s'[i].next} | 0 <= i < |s'|
      ensures !s'[i].inChain && s'[i].next == if i + 1 < |s'| then s'[i + 1] else null
    {
      if i > 0 {
        assert s'[i] == s[i - 1];
        assert old(s[i - 1].next) == if i < |s| then s[i] else null;
      }
    }
  }

  twostate lemma ReleasedAccounted(k: KernelHeap, new c: int, new p: int)
    requires old(Shape(k.v)) && Shape(k.v) && old(Accounted(k.v)) && k.dir.Length == NR_SIZES
    requires 0 <= c < NR_SIZES && p in old(k.v.desc) && k.v.descs == old(k.v.descs) && Unlinked(k, c, p)
    requires k.v.spares == [old(k.v.desc[p])] + old(k.v.spares) && k.v.desc == old(k.v.desc) - {p}
    ensures Accounted(k.v)
  {
    hide PageOf;
  }

  twostate lemma ReleasedLinks(k: KernelHeap, new c: int, new p: int)
    requires k.dir.Length == NR_SIZES && old(Shape(k.v)) && old(k.Linked()) && Shape(k.v) && 0 <= c < NR_SIZES
    requires GoodChains(old(k.v.heap)) && p in old(k.v.desc) && c == old(k.v.heap.buckets[p].cls)
    requires k.v.desc == old(k.v.desc) - {p} && k.v.descs == old(k.v.descs)
    requires k.v.heap.chains == old(k.v.heap.chains)[c := Remove(old(k.v.heap.chains[c]), p)]
    requires Unlinked(k, c, p)
    ensures k.Linked()
  {
    forall e | 0 <= e < NR_SIZES
      ensures ChainLinked(k.v, e, k.dir[e])
    {
      var chain, chain' := old(k.v.heap.chains[e]), k.v.heap.chains[e];
      assert p in old(k.v.heap.chains[c]);
      var n := if e == c then IndexOf(chain, p) else |chain|;
      assert forall i :: 0 <= i < |chain| ==> chain[i] in old(k.v.desc) && (chain[i] == p <==> i == n);
      assert n < |chain| ==> chain' == chain[..n] + chain[n + 1..];
      ReleasedChain(k, e, p, n);
    }
  }

  /** The descriptors of chain `c`. */
  ghost function Descs(v: View, c: int): (s: seq<BucketDesc>)
    requires Shape(v) && 0 <= c < NR_SIZES
    ensures |s| == |v.heap.chains[c]|
  {
    seq(|v.heap.chains[c]|, i requires 0 <= i < |v.heap.chains[c]| => v.desc[v.heap.chains[c][i]])
  }

  /** What the pointers of a chain are. */
  ghost function After(s: seq<BucketDesc>, i: int): BucketDesc?
    requires 0 <= i <= |s|
  {
    if i < |s| then s[i] else null
  }

  lemma LinkedByDescs(v: View, c: int, head: BucketDesc?)
    requires Shape(v) && 0 <= c < NR_SIZES
    requires var s := Descs(v, c); head == After(s, 0) && forall i :: 0 <= i < |s| ==> s[i].next == After(s, i + 1)
    ensures ChainLinked(v, c, head)
  {
    var s := Descs(v, c);
    forall i {:trigger v.desc[v.heap.chains[c][i]].next} | 0 <= i < |v.heap.chains[c]|
      ensures v.desc[v.heap.chains[c][i]].next
           == if i + 1 < |v.heap.chains[c]| then v.desc[v.heap.chains[c][i + 1]] else null
    {
      assert s[i].next == After(s, i + 1);
    }
  }

  twostate lemma WereLinked(k: KernelHeap, new c: int)
    requires k.dir.Length == NR_SIZES && old(Shape(k.v)) && 0 <= c < NR_SIZES && old(ChainLinked(k.v, c, k.dir[c]))
    ensures var s := Descs(old(k.v), c);
      old(k.dir[c]) == After(s, 0) && forall i :: 0 <= i < |s| ==> old(s[i].next) == After(s, i + 1)
  {
    var v := old(k.v);
    var s := Descs(v, c);
    forall i | 0 <= i < |s|
      ensures old(s[i].next) == After(s, i + 1)
    {
      assert s[i] == v.desc[v.heap.chains[c][i]];
    }
  }

  /** Taking the descriptor at place `n` out of a chain, or none if `n` is its length. */
  twostate lemma Unthread(s: seq<BucketDesc>, new s': seq<BucketDesc>, new b: BucketDesc, new next: BucketDesc?,
                          new n: int)
    requires 0 <= n <= |s| && s' == if n < |s| then s[..n] + s[n + 1..] else s
    requires forall i :: 0 <= i < |s| ==> (s[i] == b <==> i == n)
    requires forall i :: 0 <= i < |s| ==> old(s[i].next) == After(s, i + 1)
    requires n < |s| ==> next == old(s[n].next)
    requires forall i :: 0 <= i < |s| && i != n ==>
      s[i].next == if old(s[i].next) == b then next else old(s[i].next)
    ensures forall i :: 0 <= i < |s'| ==> s'[i].next == After(s', i + 1)
    ensures After(s', 0) == if After(s, 0) == b then next else After(s, 0)
  {
  }

  lemma DescsReleased(v: View, v': View, e: int, p: int, n: int)
    requires Shape(v) && Shape(v') && 0 <= e < NR_SIZES && p in v.desc && v'.desc == v.desc - {p}
    requires var chain := v.heap.chains[e];
      && 0 <= n <= |chain| && (forall i :: 0 <= i < |chain| ==> (chain[i] == p <==> i == n))
      && v'.heap.chains[e] == if n < |chain| then chain[..n] + chain[n + 1..] else chain
    ensures var s, s' := Descs(v, e), Descs(v', e);
      && s' == (if n < |s| then s[..n] + s[n + 1..] else s)
      && forall i :: 0 <= i < |s| ==> s[i] in v.descs && (s[i] == v.desc[p] <==> i == n)
  {
    var chain, chain' := v.heap.chains[e], v'.heap.chains[e];
    var s, s' := Descs(v, e), Descs(v', e);
    assert forall i :: 0 <= i < |s| ==> chain[i] in v.desc && v.desc[chain[i]] in v.descs;
    assert forall i :: 0 <= i < |s| ==> (v.desc[chain[i]] == v.desc[p] <==> i == n);
    hide Shape;
    forall i | 0 <= i < |s'|
      ensures s'[i] == s[if i < n then i else i + 1]
    {
      assert chain'[i] == chain[if i < n then i else i + 1];
    }
    assert s' == if n < |s| then s[..n] + s[n + 1..] else s;
  }

  /** The chain of class `e` once the page at its place `n` is gone. */
  twostate lemma ReleasedChain(k: KernelHeap, new e: int, new p: int, new n: int)
    requires k.dir.Length == NR_SIZES && old(Shape(k.v)) && Shape(k.v) && 0 <= e < NR_SIZES
    requires p in old(k.v.desc) && k.v.desc == old(k.v.desc) - {p} && k.v.descs == old(k.v.descs)
    requires old(ChainLinked(k.v, e, k.dir[e]))
    requires var chain := old(k.v.heap.chains[e]);
      && 0 <= n <= |chain| && (forall i :: 0 <= i < |chain| ==> (chain[i] == p <==> i == n))
      && k.v.heap.chains[e] == if n < |chain| then chain[..n] + chain[n + 1..] else chain
    requires k.dir[e] == if old(k.dir[e]) == old(k.v.desc[p]) then old(k.v.desc[p].next) else old(k.dir[e])
    requires forall d :: d in old(k.v.descs) && d != old(k.v.desc[p]) ==>
      d.next == if old(d.next) == old(k.v.desc[p]) then old(k.v.desc[p].next) else old(d.next)
    ensures ChainLinked(k.v, e, k.dir[e])
  {
    DescsReleased(old(k.v), k.v, e, p, n);
    WereLinked(k, e);
    hide Shape, Descs, ChainLinked;
    Unthread(Descs(old(k.v), e), Descs(k.v, e), old(k.v.desc[p]), old(k.v.desc[p].next), n);
    LinkedByDescs(k.v, e, k.dir[e]);
  }

  lemma NewPageIsNew(h: Heap)
    requires GoodHeap(h)
    ensures HighestFree(h.count) !in h.buckets
  {
  }

  lemma ReleaseCount(h: Heap, p: int)
    requires p in h.buckets && 0 <= h.buckets[p].cls < |h.chains| && 0 <= p < |h.count|
    ensures Release(h, p).count == h.count[p := h.count[p] - 1]
  {
  }

  lemma PaOfPage(p: int)
    ensures PaToPfn(Pa(PageVa(p))) == p
  {
  }

  /** Every bucket page has its place on the chain of its class, and no other. */
  lemma HasPlace(h: Heap, q: int)
    requires GoodChains(h) && q in h.buckets && 0 <= h.buckets[q].cls < NR_SIZES
    ensures var chain := h.chains[h.buckets[q].cls]; IndexOf(chain, q) < |chain| && chain[IndexOf(chain, q)] == q
  {
    assert q in h.chains[h.buckets[q].cls];
  }

  lemma PlaceIs(h: Heap, e: int, j: int, q: int)
    requires GoodChains(h) && 0 <= e < NR_SIZES && 0 <= j < |h.chains[e]| && h.chains[e][j] == q
    ensures q in h.buckets && h.buckets[q].cls == e && IndexOf(h.chains[e], q) == j
  {
    assert q in h.chains[e];
  }

  /** A descriptor that points to the one of page `p` is its predecessor on the chain; one that leads
      nowhere on the chain shows that `p` is at the head. */
  lemma Predecessor(h: KernelHeap, c: int, p: int)
    requires h.Repr() && GoodChains(h.v.heap) && p in h.v.desc && c == h.v.heap.buckets[p].cls
    ensures var v := h.v; var chain := v.heap.chains[c]; var k := IndexOf(chain, p);
      && k < |chain|
      && (k > 0 ==> chain[k - 1] in v.desc && chain[k - 1] != p)
      && (forall d :: d in v.descs && d.next == v.desc[p] ==> k > 0 && d == v.desc[chain[k - 1]])
      && (h.dir[c] == v.desc[p] <==> k == 0)
      && (k > 0 ==> v.desc[chain[k - 1]].next == v.desc[p])
  {
    var v := h.v;
    var chain := v.heap.chains[c];
    var k := IndexOf(chain, p);
    HasPlace(v.heap, p);
    hide Threads, SparesLinked, Accounted, Describes;
    assert ChainLinked(v, c, h.dir[c]);
    PlaceIs(v.heap, c, 0, chain[0]);
    if k > 0 {
      PlaceIs(v.heap, c, k - 1, chain[k - 1]);
      assert v.desc[v.heap.chains[c][k - 1]].next == v.desc[p];
    }
    hide GoodChains, Pointers, KernelHeap.Linked;
    forall d | d in v.descs && d.next == v.desc[p]
      ensures k > 0 && d == v.desc[chain[k - 1]]
    {
      PointsTo(h, c, p, d);
    }
  }

  lemma PointsTo(h: KernelHeap, c: int, p: int, d: BucketDesc)
    requires h.Repr() && GoodChains(h.v.heap) && p in h.v.desc && c == h.v.heap.buckets[p].cls
    requires d in h.v.descs && d.next == h.v.desc[p]
    ensures var v := h.v; var chain := v.heap.chains[c]; var k := IndexOf(chain, p);
      k < |chain| && k > 0 && chain[k - 1] in v.desc && d == v.desc[chain[k - 1]]
  {
    var v := h.v;
    hide Threads, GoodChains, IndexOf, PageOf, PageVa;
    var q := DescribedPage(h, p, d);
    var e := v.heap.buckets[q].cls;
    HasPlace(v.heap, q);
    var i := IndexOf(v.heap.chains[e], q);
    assert ChainLinked(v, e, h.dir[e]);
    assert v.desc[v.heap.chains[e][i]].next == v.desc[p];
    PlaceIs(v.heap, e, i + 1, p);
  }

  /** A descriptor that points to one on a chain is on a chain, too. */
  lemma DescribedPage(h: KernelHeap, p: int, d: BucketDesc) returns (q: int)
    requires h.Repr() && p in h.v.desc && d in h.v.descs && d.next == h.v.desc[p]
    ensures q in h.v.desc && h.v.desc[q] == d
  {
    hide Threads, ChainLinked, PageOf, PageVa;
    assert h.v.desc[p].inChain;
    q := PageOf(d.page);
  }

  lemma PageStart(obj: int, p: int)
    requires IsPfn(p) && PageVa(p) <= obj < PageVa(p) + PAGE_SIZE
    ensures obj - obj % 4096 == PageVa(p)
  {
  }

  lemma SamePageVa(p: int, q: int)
    ensures PageVa(p) == PageVa(q) <==> p == q
  {
  }

  lemma SizesGrow(c: int, d: int)
    requires 0 <= c < NR_SIZES && 0 <= d < NR_SIZES
    ensures Size(c) < Size(d) <==> c < d
  {
  }

  lemma ThreadedTail(m: Memory, ptr: int, free: seq<int>)
    requires Threaded(m, ptr, free) && free != []
    ensures InRam(ptr) && Threaded(m, m[WordIndex(ptr)], free[1..])
  {
    var rest := free[1..];
    assert m[WordIndex(free[0])] == if 1 < |free| then free[1] else 0;
    forall i | 0 <= i < |rest|
      ensures m[WordIndex(rest[i])] == if i + 1 < |rest| then rest[i + 1] else 0
    {
      assert rest[i] == free[i + 1];
      assert m[WordIndex(free[i + 1])] == if i + 2 < |free| then free[i + 2] else 0;
    }
  }

  lemma PushShape(v: View, obj: int)
    requires Shape(v) && PageOf(obj) in v.heap.buckets
    ensures Shape(v.(heap := Push(v.heap, obj)))
    ensures PageOf(obj) in v.desc && v.desc[PageOf(obj)] in v.descs
    ensures forall q :: q in v.desc && v.desc[q] == v.desc[PageOf(obj)] ==> q == PageOf(obj)
  {
  }

  /** Writing the old head into the object makes it the new head; the other lists do not notice. */
  lemma PushThreads(v: View, m: Memory, obj: int)
    requires Shape(v) && Threads(v, m) && GoodHeap(v.heap) && IsLive(v.heap, obj) && InRam(obj)
    ensures var p := PageOf(obj);
      && var w := v.desc[p].freeptr;
      && 0 <= w < 0x1_0000_0000_0000_0000
      && var m': Memory := m[WordIndex(obj) := w];
      && Threaded(m', obj, [obj] + v.heap.buckets[p].free)
      && (forall q :: q in v.desc && q != p ==> Threaded(m', v.desc[q].freeptr, v.heap.buckets[q].free))
      && (forall q :: IsPfn(q) && q != p ==> SamePage(m, m', q))
  {
    var p := PageOf(obj);
    var b, w := v.heap.buckets[p], v.desc[p].freeptr;
    assert GoodBucket(p, b) && Threaded(m, w, b.free);
    SlotWord(p, b.cls, obj);
    var m': Memory := m[WordIndex(obj) := w];
    var free := [obj] + b.free;
    forall i | 0 <= i < |b.free|
      ensures WordIndex(b.free[i]) != WordIndex(obj)
    {
      SlotWord(p, b.cls, b.free[i]);
      SlotsApart(p, b.cls, obj, b.free[i]);
    }
    forall i | 0 <= i < |free|
      ensures InRam(free[i]) && m'[WordIndex(free[i])] == if i + 1 < |free| then free[i + 1] else 0
    {
      if i > 0 {
        assert free[i] == b.free[i - 1];
        assert m[WordIndex(b.free[i - 1])] == if i < |b.free| then b.free[i] else 0;
      }
    }
    forall q | q in v.desc && q != p
      ensures Threaded(m', v.desc[q].freeptr, v.heap.buckets[q].free)
    {
      assert GoodBucket(q, v.heap.buckets[q]);
      ThreadedKept(m, m', q, v.heap.buckets[q], v.desc[q].freeptr);
    }
  }

  lemma NothingFree(v: View, m: Memory, p: int)
    requires Shape(v) && Threads(v, m) && p in v.desc && v.desc[p].freeptr == 0
    ensures v.heap.buckets[p].free == []
  {
    var free := v.heap.buckets[p].free;
    assert free == [] || InRam(free[0]);
  }

  lemma SomethingFree(v: View, m: Memory, p: int)
    requires Shape(v) && Threads(v, m) && p in v.desc && v.desc[p].freeptr != 0
    ensures v.heap.buckets[p].free != []
  {
  }

  /** A change to one bucket's list and refcnt keeps everything else represented. */
  twostate lemma BucketUpdated(k: KernelHeap, new p: int)
    requires old(k.Repr()) && k.ram.Valid() && Shape(k.v) && p in k.v.desc
    requires k.v == old(k.v).(heap := k.v.heap)
    requires k.v.heap == old(k.v.heap).(buckets := k.v.heap.buckets)
    requires k.v.heap.buckets == old(k.v.heap.buckets)[p := k.v.heap.buckets[p]]
    requires forall d :: d in k.v.descs && d != k.v.desc[p] ==> unchanged(d)
    requires k.v.desc[p].next == old(k.v.desc[p].next)
    requires unchanged(k.dir) && unchanged(k`freeDesc) && k.ram.Count() == old(k.ram.Count())
    requires Describes(k.v.desc[p], p, k.v.heap.buckets[p])
    requires Threaded(k.ram.Mem(), k.v.desc[p].freeptr, k.v.heap.buckets[p].free)
    requires forall q :: q in k.v.desc && q != p ==>
      Threaded(k.ram.Mem(), old(k.v.desc[q].freeptr), k.v.heap.buckets[q].free)
    ensures k.Repr()
  {
    hide Threaded, ChainLinked, SparesLinked;
    var v := k.v;
    hide PageVa, PageOf;
    LinksKept(k);
    SparesKept(k);
    assert Threads(v, k.ram.Mem()) by {
      hide Describes, Accounted;
    }
    assert Pointers(v) by {
      hide Threads;
      assert old(Accounted(k.v));
    }
    hide Pointers, Threads, Shape;
  }

  twostate lemma LinksKept(k: KernelHeap)
    requires k.dir.Length == NR_SIZES && old(Shape(k.v)) && Shape(k.v) && old(k.Linked())
    requires k.v.desc == old(k.v.desc) && k.v.heap.chains == old(k.v.heap.chains) && unchanged(k.dir)
    requires k.v.descs == old(k.v.descs)
    requires forall d :: d in old(k.v.descs) ==> d.next == old(d.next)
    ensures k.Linked()
  {
    forall c | 0 <= c < NR_SIZES
      ensures ChainLinked(k.v, c, k.dir[c])
    {
      assert old(ChainLinked(k.v, c, k.dir[c]));
    }
  }

  twostate lemma SparesKept(k: KernelHeap)
    requires old(Shape(k.v)) && Shape(k.v) && old(SparesLinked(k.v, k.freeDesc))
    requires k.v.spares == old(k.v.spares) && k.freeDesc == old(k.freeDesc) && k.v.descs == old(k.v.descs)
    requires forall d :: d in old(k.v.descs) ==> d.next == old(d.next) && d.inChain == old(d.inChain)
    ensures SparesLinked(k.v, k.freeDesc)
  {
  }

  /** A descriptor gets a new page, threaded slot by slot. */
  method FillBucket(ram: Ram, bdesc: BucketDesc, c: int) returns (ghost p: int)
    requires ram.Valid() && 0 <= c < NR_SIZES && FreePages(ram.Count()) > 0
    modifies bdesc, ram.mem, ram.count
    ensures p == HighestFree(old(ram.Count())) && IsPfn(p) && ram.Count() == old(ram.Count())[p := 1]
    ensures bdesc.page == PageVa(p) && bdesc.freeptr == PageVa(p)
    ensures bdesc.refcnt == 0 && bdesc.bucketSize == Size(c) && bdesc.inChain == old(bdesc.inChain)
    ensures Threaded(ram.Mem(), PageVa(p), Slots(p, c)) && TailsClear(ram.Mem(), p, c)
    ensures UsedPagesKept(old(ram.Mem()), ram.Mem(), old(ram.Count()))
  {
    hide Threaded, FreePages, HighestFree, UsedPagesKept, SamePage, ZeroPage, Slots, TailsClear, TailsKept;
    ghost var m, count := ram.Mem(), ram.Count();
    FreePagesPositive(count);
    bdesc.refcnt := 0;
    bdesc.bucketSize := Size(c);
    var cp;
    cp, p := ram.GetFreePage();
    ghost var m1 := ram.Mem();
    bdesc.page := cp;
    bdesc.freeptr := cp;
    ThreadSlots(ram, cp, Size(c), p, c);
    KeptButOne(m, m1, ram.Mem(), p, count);
    ClearPageTails(m1, ram.Mem(), p, c);
  }

  /** The loop that sets up the chain of free objects in a new page. */
  method ThreadSlots(ram: Ram, start: int, size: int, ghost p: int, ghost c: int)
    requires ram.Valid() && IsPfn(p) && 0 <= c < NR_SIZES && start == PageVa(p) && size == Size(c)
    modifies ram.mem
    ensures Threaded(ram.Mem(), start, Slots(p, c)) && TailsKept(old(ram.Mem()), ram.Mem(), p, c)
    ensures forall q :: IsPfn(q) && q != p ==> SamePage(old(ram.Mem()), ram.Mem(), q)
  {
    assert TailsKept(ram.Mem(), ram.Mem(), p, c);
    hide Slots, SamePage, TailsKept;
    ghost var j, m0 := 0, ram.Mem();
    ghost var slots := Slots(p, c);
    SlotStep(p, c, 0);
    assert slots[0] == start by { SlotZero(p, c); }
    forall t | 0 <= t < |slots|
      ensures InRam(slots[t])
    {
      SlotStep(p, c, t);
    }
    assert forall q :: IsPfn(q) ==> SamePage(m0, m0, q) by { SameAsItself(m0); }
    var cp := start;
    var i := 4096 / size;
    while i > 1
      invariant 1 <= i <= SlotsIn(c) && j == SlotsIn(c) - i && cp == slots[j]
      invariant forall t {:trigger ram.Mem()[WordIndex(slots[t])]} :: 0 <= t < j ==>
        ram.Mem()[WordIndex(slots[t])] == slots[t + 1]
      invariant forall q :: IsPfn(q) && q != p ==> SamePage(m0, ram.Mem(), q)
      invariant TailsKept(m0, ram.Mem(), p, c)
    {
      SlotStep(p, c, j);
      SlotStep(p, c, j + 1);
      ghost var m := ram.Mem();
      StoreSlot(ram, cp, cp + size, p, c, j);
      PagesKeptTwice(m0, m, ram.Mem(), p);
      TailsTwice(m0, m, ram.Mem(), p, c);
      forall t | 0 <= t < j + 1
        ensures ram.Mem()[WordIndex(slots[t])] == slots[t + 1]
      {
        if t < j {
          assert m[WordIndex(slots[t])] == slots[t + 1];
        }
      }
      cp := cp + size;
      i := i - 1;
      j := j + 1;
    }
    SlotStep(p, c, j);
    ghost var m := ram.Mem();
    StoreSlot(ram, cp, 0, p, c, j);
    PagesKeptTwice(m0, m, ram.Mem(), p);
    TailsTwice(m0, m, ram.Mem(), p, c);
    forall t | 0 <= t < |slots|
      ensures ram.Mem()[WordIndex(slots[t])] == if t + 1 < |slots| then slots[t + 1] else 0
    {
      if t < j {
        assert m[WordIndex(slots[t])] == slots[t + 1];
      }
    }
  }

  /** Behind the first word of each slot the page is clear. */
  ghost predicate TailsClear(m: Memory, p: int, c: int)
    requires IsPfn(p) && 0 <= c < NR_SIZES
  {
    forall t, k :: 0 <= t < SlotsIn(c) && 1 <= k < Size(c) / 8 ==> SlotEntry(m, p, c, t, k) == 0
  }

  /** Word `k` of slot `t`. */
  ghost function SlotEntry(m: Memory, p: int, c: int, t: int, k: int): Word
    requires IsPfn(p) && 0 <= c < NR_SIZES && 0 <= t < SlotsIn(c) && 0 <= k < Size(c) / 8
  {
    SlotEntryAt(p, c, t, k);
    m[WordIndex(Slots(p, c)[t]) + k]
  }

  lemma SlotEntryAt(p: int, c: int, t: int, k: int)
    requires IsPfn(p) && 0 <= c < NR_SIZES && 0 <= t < SlotsIn(c) && 0 <= k < Size(c) / 8
    ensures InRam(Slots(p, c)[t])
    ensures p * WORDS <= WordIndex(Slots(p, c)[t]) + k < (p + 1) * WORDS
  {
    SlotStep(p, c, t);
    SlotWord(p, c, Slots(p, c)[t]);
    SlotsApart(p, c, Slots(p, c)[t], Slots(p, c)[t]);
  }

  ghost predicate TailsKept(m: Memory, m': Memory, p: int, c: int)
    requires IsPfn(p) && 0 <= c < NR_SIZES
  {
    forall t, k :: 0 <= t < SlotsIn(c) && 1 <= k < Size(c) / 8 ==> SlotEntry(m', p, c, t, k) == SlotEntry(m, p, c, t, k)
  }

  /** The first word of a slot is in no other slot. */
  lemma FirstWordOnly(m: Memory, m': Memory, p: int, c: int, j: int)
    requires IsPfn(p) && 0 <= c < NR_SIZES && 0 <= j < SlotsIn(c)
    requires OnlyWord(m, m', Slots(p, c)[j])
    ensures TailsKept(m, m', p, c)
  {
    forall t, k | 0 <= t < SlotsIn(c) && 1 <= k < Size(c) / 8
      ensures SlotEntry(m', p, c, t, k) == SlotEntry(m, p, c, t, k)
    {
      SlotEntryAt(p, c, t, k);
      SlotEntryAt(p, c, j, 0);
      SlotStep(p, c, t);
      SlotStep(p, c, j);
      SlotsApart(p, c, Slots(p, c)[t], Slots(p, c)[j]);
    }
  }

  lemma ClearPageTails(m: Memory, m': Memory, p: int, c: int)
    requires IsPfn(p) && 0 <= c < NR_SIZES && ZeroPage(m, p) && TailsKept(m, m', p, c)
    ensures TailsClear(m', p, c)
  {
    forall t, k | 0 <= t < SlotsIn(c) && 1 <= k < Size(c) / 8
      ensures SlotEntry(m', p, c, t, k) == 0
    {
      SlotEntryAt(p, c, t, k);
      var w := WordIndex(Slots(p, c)[t]) + k - p * WORDS;
      assert Entry(m, p, w) == 0;
    }
  }

  lemma TailsTwice(m0: Memory, m1: Memory, m2: Memory, p: int, c: int)
    requires IsPfn(p) && 0 <= c < NR_SIZES && TailsKept(m0, m1, p, c) && TailsKept(m1, m2, p, c)
    ensures TailsKept(m0, m2, p, c)
  {
    hide SlotEntry;
  }

  lemma KeptAtFirst(m: Memory, c: Counts)
    ensures UsedPagesKept(m, m, c)
  {
  }

  lemma KeptButOne(m0: Memory, m1: Memory, m2: Memory, p: int, c: Counts)
    requires forall q :: IsPfn(q) && q != p ==> SamePage(m0, m1, q)
    requires forall q :: IsPfn(q) && q != p ==> SamePage(m1, m2, q)
    requires IsPfn(p) && c[p] == 0
    ensures UsedPagesKept(m0, m2, c)
  {
    PagesKeptTwice(m0, m1, m2, p);
  }

  lemma KeptOn(m0: Memory, m1: Memory, m2: Memory, c0: Counts, c1: Counts)
    requires UsedPagesKept(m0, m1, c0) && UsedPagesKept(m1, m2, c1)
    requires forall q :: IsPfn(q) && c0[q] != 0 ==> c1[q] != 0
    ensures UsedPagesKept(m0, m2, c0)
  {
    forall q | IsPfn(q) && c0[q] != 0
      ensures SamePage(m0, m2, q)
    {
      assert SamePage(m0, m1, q) && SamePage(m1, m2, q);
    }
  }

  lemma SlotZero(p: int, c: int)
    requires 0 <= c < NR_SIZES
    ensures Slots(p, c)[0] == PageVa(p)
  {
  }

  lemma SameAsItself(m: Memory)
    ensures forall q :: IsPfn(q) ==> SamePage(m, m, q)
  {
  }

  lemma PagesKeptTwice(m0: Memory, m1: Memory, m2: Memory, p: int)
    requires forall q :: IsPfn(q) && q != p ==> SamePage(m0, m1, q)
    requires forall q :: IsPfn(q) && q != p ==> SamePage(m1, m2, q)
    ensures forall q :: IsPfn(q) && q != p ==> SamePage(m0, m2, q)
  {
    forall q | IsPfn(q) && q != p
      ensures SamePage(m0, m2, q)
    {
      assert SamePage(m0, m1, q) && SamePage(m1, m2, q);
    }
  }

  /** Writes the first word of slot `j`, and no other slot's. */
  method StoreSlot(ram: Ram, a: int, w: Word, ghost p: int, ghost c: int, ghost j: int)
    requires ram.Valid() && IsPfn(p) && 0 <= c < NR_SIZES && 0 <= j < SlotsIn(c)
    requires a == Slots(p, c)[j] && InRam(a)
    modifies ram.mem
    ensures ram.Mem()[WordIndex(Slots(p, c)[j])] == w
    ensures forall t {:trigger ram.Mem()[WordIndex(Slots(p, c)[t])]} :: 0 <= t < SlotsIn(c) && t != j ==>
      InRam(Slots(p, c)[t]) && ram.Mem()[WordIndex(Slots(p, c)[t])] == old(ram.Mem())[WordIndex(Slots(p, c)[t])]
    ensures forall q :: IsPfn(q) && q != p ==> SamePage(old(ram.Mem()), ram.Mem(), q)
    ensures TailsKept(old(ram.Mem()), ram.Mem(), p, c)
  {
    hide TailsKept;
    ghost var slots := Slots(p, c);
    SlotsGood(p, c);
    SlotWord(p, c, slots[j]);
    ram.Store(a, w);
    FirstWordOnly(old(ram.Mem()), ram.Mem(), p, c, j);
    forall t | 0 <= t < SlotsIn(c) && t != j
      ensures InRam(slots[t]) && WordIndex(slots[t]) != WordIndex(slots[j])
    {
      SlotWord(p, c, slots[t]);
      SlotsApart(p, c, slots[j], slots[t]);
    }
  }

  lemma SlotStep(p: int, c: int, j: int)
    requires 0 <= c < NR_SIZES && IsPfn(p) && 0 <= j < SlotsIn(c)
    ensures IsSlot(p, c, Slots(p, c)[j]) && InRam(Slots(p, c)[j])
    ensures j + 1 < SlotsIn(c) ==> Slots(p, c)[j + 1] == Slots(p, c)[j] + Size(c)
    ensures 4096 / Size(c) == SlotsIn(c)
  {
    SlotIs(p, c, j);
    SlotWord(p, c, Slots(p, c)[j]);
    match c
    case 0 => case 1 => case 2 => case 3 => case 4 => case 5 => case 6 => case 7 => case 8 =>
  }

  /** The loop of init_bucket_desc over the new page's descriptors. */
  method CarveDescriptors() returns (first: BucketDesc, last: BucketDesc, ghost list: seq<BucketDesc>)
    ensures |list| == DESCS_PER_PAGE && first == list[0] && last == list[DESCS_PER_PAGE - 1]
    ensures forall j :: 0 <= j < |list| ==> fresh(list[j]) && !list[j].inChain
    ensures forall j, k :: 0 <= j < k < |list| ==> list[j] != list[k]
    ensures forall j {:trigger list[j].next} :: 0 <= j < |list| - 1 ==> list[j].next == list[j + 1]
  {
    first := new BucketDesc();
    last := first;
    list := [first];
    var i := DESCS_PER_PAGE;
    while i > 1
      invariant 1 <= i <= DESCS_PER_PAGE && |list| == DESCS_PER_PAGE + 1 - i
      invariant forall j :: 0 <= j < |list| ==> fresh(list[j]) && !list[j].inChain
      invariant forall j, k :: 0 <= j < k < |list| ==> list[j] != list[k]
      invariant last == list[|list| - 1] && first == list[0]
      invariant forall j {:trigger list[j].next} :: 0 <= j < |list| - 1 ==> list[j].next == list[j + 1]
    {
      var d := new BucketDesc();
      last.next := d;
      last := d;
      list := list + [d];
      i := i - 1;
    }
  }

  twostate lemma MoreDescriptorsKeeps(k: KernelHeap)
    requires old(k.Valid()) && old(k.freeDesc) == null
    requires var h := MoreDescriptors(old(k.v.heap));
      h.spare == |k.v.spares| && k.v == View(h, old(k.v.desc), k.v.spares, old(k.v.descs) + set d | d in k.v.spares)
      && k.ram.Count() == h.count
    requires forall d :: d in old(k.v.descs) ==> unchanged(d)
    requires forall d :: d in k.v.spares ==> d !in old(k.v.descs)
    requires unchanged(k.dir)
    requires UsedPagesKept(old(k.ram.Mem()), k.ram.Mem(), old(k.ram.Count()))
    requires forall i, j :: 0 <= i < j < |k.v.spares| ==> k.v.spares[i] != k.v.spares[j]
    requires Shape(k.v) && SparesLinked(k.v, k.freeDesc)
    ensures k.Repr()
  {
    var v, v' := old(k.v), k.v;
    forall c | 0 <= c < NR_SIZES
      ensures ChainLinked(v', c, k.dir[c])
    {
      assert old(ChainLinked(v, c, k.dir[c]));
    }
    forall p | p in v'.desc
      ensures Threaded(k.ram.Mem(), v'.desc[p].freeptr, v'.heap.buckets[p].free)
    {
      assert GoodBucket(p, v.heap.buckets[p]);
      ThreadedKept(old(k.ram.Mem()), k.ram.Mem(), p, v.heap.buckets[p], v.desc[p].freeptr);
    }
  }

  /** The state in which StartBucket leaves the heap, one descriptor being now on chain `c`. */
  twostate predicate BucketStarted(k: KernelHeap, new c: int, new p: int)
    reads k, k.dir, k.ram.mem, k.ram.count, k.v.descs
  {
    && old(k.Valid()) && k.ram.Valid() && k.dir.Length == NR_SIZES && 0 <= c < NR_SIZES && old(k.v.spares) != []
    && p == HighestFree(old(k.v.heap.count)) && IsPfn(p)
    && k.v == View(AddPage(old(k.v.heap), c), old(k.v.desc)[p := old(k.v.spares[0])],
                   old(k.v.spares)[1..], old(k.v.descs))
    && k.ram.Count() == k.v.heap.count
    && (forall d :: d in old(k.v.descs) && d != old(k.v.spares[0]) ==> unchanged(d))
    && (var b := old(k.v.spares[0]);
        && b in k.v.descs
        && b.inChain && b.page == PageVa(p) && b.bucketSize == Size(c) && b.refcnt == 0 && b.freeptr == PageVa(p)
        && b.next == old(k.dir[c]) && k.dir[c] == b)
    && (forall d :: 0 <= d < NR_SIZES && d != c ==> k.dir[d] == old(k.dir[d]))
    && k.freeDesc == old(k.v.spares[0].next)
    && UsedPagesKept(old(k.ram.Mem()), k.ram.Mem(), old(k.ram.Count()))
    && Threaded(k.ram.Mem(), PageVa(p), Slots(p, c))
  }

  twostate lemma AddBucketKeeps(k: KernelHeap, new c: int, new p: int)
    requires BucketStarted(k, c, p)
    ensures k.Repr()
  {
    AddPageShape(old(k.v), k.v, c, p);
    AddBucketThreads(k, c, p);
    assert p !in old(k.v.desc);
    forall q | q in old(k.v.desc)
      ensures unchanged(old(k.v.desc[q]))
    {
      assert old(k.v.desc[q].inChain);
    }
    hide GoodHeap, Threaded, Threads, UsedPagesKept, HighestFree, FreePages;
    AddBucketLinks(k, c, p);
    AddBucketSpares(k);
    AddBucketPointers(k, c, p);
  }

  twostate lemma AddBucketThreads(k: KernelHeap, new c: int, new p: int)
    requires BucketStarted(k, c, p) && Shape(k.v)
    ensures Threads(k.v, k.ram.Mem())
  {
    var v, v' := old(k.v), k.v;
    forall q | q in v'.desc
      ensures Threaded(k.ram.Mem(), v'.desc[q].freeptr, v'.heap.buckets[q].free)
    {
      if q != p {
        assert GoodBucket(q, v.heap.buckets[q]);
        ThreadedKept(old(k.ram.Mem()), k.ram.Mem(), q, v.heap.buckets[q], v.desc[q].freeptr);
      }
    }
  }

  twostate lemma AddBucketLinks(k: KernelHeap, new c: int, new p: int)
    requires k.dir.Length == NR_SIZES && old(Shape(k.v)) && old(k.Linked()) && Shape(k.v) && 0 <= c < NR_SIZES
    requires p !in old(k.v.desc) && p in k.v.desc && k.v.desc == old(k.v.desc)[p := k.v.desc[p]]
    requires k.v.heap.chains == old(k.v.heap.chains)[c := [p] + old(k.v.heap.chains[c])]
    requires forall q :: q in old(k.v.desc) ==> unchanged(old(k.v.desc[q]))
    requires k.v.desc[p].next == old(k.dir[c]) && k.dir[c] == k.v.desc[p]
    requires forall d :: 0 <= d < NR_SIZES && d != c ==> k.dir[d] == old(k.dir[d])
    ensures k.Linked()
  {
    var v, v' := old(k.v), k.v;
    forall d | 0 <= d < NR_SIZES
      ensures ChainLinked(v', d, k.dir[d])
    {
      assert old(ChainLinked(v, d, k.dir[d]));
      var chain, chain' := v.heap.chains[d], v'.heap.chains[d];
      var off := if d == c then 1 else 0;
      assert chain' == (if d == c then [p] else []) + chain;
      forall i {:trigger v'.desc[v'.heap.chains[d][i]].next} | 0 <= i < |v'.heap.chains[d]|
        ensures v'.desc[v'.heap.chains[d][i]].next
             == if i + 1 < |v'.heap.chains[d]| then v'.desc[v'.heap.chains[d][i + 1]] else null
      {
        if i >= off {
          var q := chain[i - off];
          assert q in v.desc && chain'[i] == q;
          assert i + 1 - off < |chain| ==> chain[i + 1 - off] in v.desc;
          assert old(v.desc[v.heap.chains[d][i - off]].next)
              == if i + 1 - off < |chain| then v.desc[chain[i + 1 - off]] else null;
        }
      }
    }
  }

  twostate lemma AddBucketSpares(k: KernelHeap)
    requires old(Shape(k.v)) && old(SparesLinked(k.v, k.freeDesc)) && Shape(k.v) && old(k.v.spares) != []
    requires k.v.spares == old(k.v.spares)[1..] && k.freeDesc == old(k.v.spares[0].next)
    requires forall d :: d in old(k.v.descs) && d != old(k.v.spares[0]) ==> unchanged(d)
    ensures SparesLinked(k.v, k.freeDesc)
  {
  }

  twostate lemma AddBucketPointers(k: KernelHeap, new c: int, new p: int)
    requires old(Shape(k.v)) && old(Pointers(k.v)) && old(SparesLinked(k.v, k.freeDesc)) && Shape(k.v)
    requires IsPfn(p) && p !in old(k.v.desc) && 0 <= c < NR_SIZES && old(k.v.spares) != []
    requires k.v.desc == old(k.v.desc)[p := old(k.v.spares[0])] && k.v.descs == old(k.v.descs)
    requires k.v.heap.buckets == old(k.v.heap.buckets)[p := Bucket(c, Slots(p, c), 0)]
    requires k.v.spares == old(k.v.spares)[1..]
    requires forall d :: d in old(k.v.descs) && d != old(k.v.spares[0]) ==> unchanged(d)
    requires Describes(old(k.v.spares[0]), p, k.v.heap.buckets[p])
    ensures Pointers(k.v)
  {
    hide PageVa, PageOf;
    var v, v', b := old(k.v), k.v, old(k.v.spares[0]);
    assert v.spares == [b] + v'.spares;
    PageOfPage(p);
  }

  lemma PageOfPage(p: int)
    requires IsPfn(p)
    ensures PageOf(PageVa(p)) == p
  {
  }

  lemma AddPageShape(v: View, v': View, c: int, p: int)
    requires Shape(v) && GoodHeap(v.heap) && 0 <= c < NR_SIZES && v.spares != []
    requires p == HighestFree(v.heap.count) && p >= 0
    requires forall q :: q in v.desc ==> v.desc[q] != v.spares[0]
    requires v' == View(AddPage(v.heap, c), v.desc[p := v.spares[0]], v.spares[1..], v.descs)
    ensures Shape(v')
  {
    hide GoodBucket, Slots, HighestFree;
  }

  /** The heap stays represented while others take pages and write to pages that are not its own. */
  twostate lemma OthersTookPages(k: KernelHeap)
    requires old(k.Valid()) && k.ram.Valid()
    requires k.v == old(k.v).(heap := old(k.v.heap).(count := k.ram.Count()))
    requires k.freeDesc == old(k.freeDesc) && unchanged(k.dir)
    requires forall d :: d in k.v.descs ==> unchanged(d)
    requires forall p :: p in k.v.heap.buckets ==> IsPfn(p) && SamePage(old(k.ram.Mem()), k.ram.Mem(), p)
    requires UsedCountsKept(old(k.ram.Count()), k.ram.Count())
    ensures k.Valid()
  {
    CountsTaken(old(k.v.heap), k.ram.Count());
    hide GoodHeap, SamePage, UsedCountsKept, KernelHeap.Repr;
    OthersWorked(k);
  }

  /** So it does while others give pages back, as long as its own keep their reference. */
  twostate lemma OthersWorked(k: KernelHeap)
    requires old(k.Valid()) && k.ram.Valid()
    requires k.v == old(k.v).(heap := old(k.v.heap).(count := k.ram.Count()))
    requires k.freeDesc == old(k.freeDesc) && unchanged(k.dir)
    requires forall d :: d in k.v.descs ==> unchanged(d)
    requires forall p :: p in k.v.heap.buckets ==> IsPfn(p) && SamePage(old(k.ram.Mem()), k.ram.Mem(), p)
    requires GoodHeap(k.v.heap)
    ensures k.Valid()
  {
    var v, v' := old(k.v), k.v;
    assert Threads(v', k.ram.Mem()) by {
      forall p | p in v'.desc
        ensures Threaded(k.ram.Mem(), v'.desc[p].freeptr, v'.heap.buckets[p].free)
      {
        assert GoodBucket(p, v.heap.buckets[p]);
        ThreadedKept(old(k.ram.Mem()), k.ram.Mem(), p, v.heap.buckets[p], v.desc[p].freeptr);
      }
    }
    hide Threaded, Threads, GoodBucket, UsedPagesKept;
    LinksKept(k);
    SparesKept(k);
    hide ChainLinked, SparesLinked;
    assert Pointers(v');
  }

  /** Of memory only words of the live object `x` differ. */
  ghost predicate OnlyObject(m: Memory, m': Memory, h: Heap, x: int)
    requires IsLive(h, x)
  {
    forall w :: 0 <= w < PAGING_PAGES * WORDS && !InObject(h, x, w) ==> m'[w] == m[w]
  }

  /** The heap stays represented while the owner of an object writes to it. */
  twostate lemma ObjectWritten(k: KernelHeap, new x: int)
    requires old(k.Valid()) && k.ram.Valid() && IsLive(k.v.heap, x)
    requires k.v == old(k.v) && k.freeDesc == old(k.freeDesc) && unchanged(k.dir)
    requires forall d :: d in k.v.descs ==> unchanged(d)
    requires k.ram.Count() == old(k.ram.Count())
    requires OnlyObject(old(k.ram.Mem()), k.ram.Mem(), k.v.heap, x)
    ensures k.Valid()
  {
    var v := k.v;
    assert Threads(v, k.ram.Mem()) by {
      forall p | p in v.desc
        ensures Threaded(k.ram.Mem(), v.desc[p].freeptr, v.heap.buckets[p].free)
      {
        ListBesideObject(old(k.ram.Mem()), k.ram.Mem(), v.heap, x, p, v.desc[p].freeptr);
      }
    }
    hide Threaded, Threads, GoodBucket, OnlyObject;
    LinksKept(k);
    SparesKept(k);
    hide ChainLinked, SparesLinked;
    assert Pointers(v);
  }

  lemma ListBesideObject(m: Memory, m': Memory, h: Heap, x: int, p: int, ptr: int)
    requires GoodHeap(h) && IsLive(h, x) && p in h.buckets
    requires OnlyObject(m, m', h, x) && Threaded(m, ptr, h.buckets[p].free)
    ensures Threaded(m', ptr, h.buckets[p].free)
  {
    var free, q := h.buckets[p].free, PageOf(x);
    assert GoodBucket(p, h.buckets[p]) && GoodBucket(q, h.buckets[q]);
    SlotWord(q, h.buckets[q].cls, x);
    SlotsApart(q, h.buckets[q].cls, x, x);
    forall i | 0 <= i < |free|
      ensures m'[WordIndex(free[i])] == m[WordIndex(free[i])]
    {
      SlotWord(p, h.buckets[p].cls, free[i]);
      if p == q {
        SlotsApart(p, h.buckets[p].cls, x, free[i]);
      }
    }
  }
}
