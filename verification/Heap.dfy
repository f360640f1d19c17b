/** The bucket allocator of mm/kmalloc.c as a transition system on values: what kmalloc and free_s do
    to the chains, the free lists and the page counts, and what every run of them keeps. */
module Heap {
  import opened PhysMem

  const NR_SIZES: int := 9
  const DESCS_PER_PAGE: int := 128  // PAGE_SIZE / sizeof(struct bucket_desc)

  /** The sizes of bucket_dir. */
  function Size(c: int): (s: int)
    requires 0 <= c < NR_SIZES
    ensures 16 <= s <= 4096 && s % 16 == 0
  {
    [16, 32, 64, 128, 256, 512, 1024, 2048, 4096][c]
  }
  function SlotsIn(c: int): (n: int)
    requires 0 <= c < NR_SIZES
    ensures n * Size(c) == PAGE_SIZE && n >= 1
  {
    [256, 128, 64, 32, 16, 8, 4, 2, 1][c]
  }

  /** The chain kmalloc looks in: the first whose size is large enough. */
  function ClassOf(len: nat): (c: int)
    requires len <= PAGE_SIZE
    ensures 0 <= c < NR_SIZES && Size(c) >= len
    ensures forall d :: 0 <= d < c ==> Size(d) < len
  {
    if len <= 16 then 0 else if len <= 32 then 1 else if len <= 64 then 2
    else if len <= 128 then 3 else if len <= 256 then 4 else if len <= 512 then 5
    else if len <= 1024 then 6 else if len <= 2048 then 7 else 8
  }

  /** A bucket page: its chain, its free list from the head on, and the number of live objects. */
  datatype Bucket = Bucket(cls: int, free: seq<int>, refcnt: int)

  /** The chains list pages; `spare` is the length of free_bucket_desc and `descPages` the pages that
      descriptors were carved from. */
  datatype Heap = Heap(count: seq<int>, chains: seq<seq<int>>, buckets: map<int, Bucket>,
                       spare: nat, descPages: seq<int>)

  function Slot(page: int, c: int, j: int): int
    requires 0 <= c < NR_SIZES
  {
    PageVa(page) + j * Size(c)
  }
  function Slots(page: int, c: int): (s: seq<int>)
    requires 0 <= c < NR_SIZES
    ensures |s| == SlotsIn(c)
  {
    seq(SlotsIn(c), j requires 0 <= j < SlotsIn(c) => Slot(page, c, j))
  }
  predicate IsSlot(page: int, c: int, a: int)
    requires 0 <= c < NR_SIZES
  {
    PageVa(page) <= a < PageVa(page) + PAGE_SIZE && (a - PageVa(page)) % Size(c) == 0
  }

  predicate Distinct<T(==)>(s: seq<T>) {
    forall i, j :: 0 <= i < j < |s| ==> s[i] != s[j]
  }

  /** One bucket: its free list is made of different slots of its page, and with the live objects it
      makes up the whole page; some object is live. */
  ghost predicate GoodBucket(page: int, b: Bucket) {
    && 0 <= b.cls < NR_SIZES && IsPfn(page)
    && Distinct(b.free)
    && (forall i :: 0 <= i < |b.free| ==> IsSlot(page, b.cls, b.free[i]))
    && |b.free| + b.refcnt == SlotsIn(b.cls)
    && b.refcnt > 0
  }

  ghost predicate GoodHeap(h: Heap) {
    && |h.count| == PAGING_PAGES && |h.chains| == NR_SIZES
    && (forall p :: p in h.buckets ==> GoodBucket(p, h.buckets[p]) && h.count[p] == 1)
    && (forall p :: p in h.buckets ==> p !in h.descPages)
    && (forall p :: p in h.descPages ==> IsPfn(p) && h.count[p] == 1)
    && Distinct(h.descPages)
    && GoodChains(h)
  }

  /** Every bucket page is once on the chain of its class and on no other. */
  ghost predicate GoodChains(h: Heap) {
    && |h.chains| == NR_SIZES
    && (forall c :: 0 <= c < NR_SIZES ==> Distinct(h.chains[c]))
    && (forall c, p :: 0 <= c < NR_SIZES ==> (p in h.chains[c] <==> p in h.buckets && h.buckets[p].cls == c))
  }

  /** An object handed out by kmalloc and not yet freed. */
  predicate IsLive(h: Heap, a: int) {
    var p := PageOf(a);
    p in h.buckets && 0 <= h.buckets[p].cls < NR_SIZES
    && IsSlot(p, h.buckets[p].cls, a) && a !in h.buckets[p].free
  }
  function SizeAt(h: Heap, a: int): int
    requires IsLive(h, a)
  {
    Size(h.buckets[PageOf(a)].cls)
  }

  // ---------------------------------------------------------------- kmalloc

  /** The first page of a chain with a free slot, or the chain's length. */
  function FirstFree(chain: seq<int>, buckets: map<int, Bucket>): (k: nat)
    ensures k <= |chain|
    ensures k < |chain| ==> chain[k] in buckets && buckets[chain[k]].free != []
    ensures forall j :: 0 <= j < k ==> chain[j] in buckets ==> buckets[chain[j]].free == []
  {
    if chain == [] then 0
    else if chain[0] in buckets && buckets[chain[0]].free != [] then 0
    else 1 + FirstFree(chain[1..], buckets)
  }

  /** init_bucket_desc, called when no descriptor is left. */
  function MoreDescriptors(h: Heap): Heap
    requires |h.count| == PAGING_PAGES
  {
    var p := HighestFree(h.count);
    if p < 0 then h else
    h.(count := h.count[p := 1], spare := DESCS_PER_PAGE, descPages := h.descPages + [p])
  }

  /** A descriptor is taken for a fresh page, whose slots form its free list. The refcnt is still 0. */
  function AddPage(h: Heap, c: int): Heap
    requires |h.count| == PAGING_PAGES && |h.chains| == NR_SIZES && 0 <= c < NR_SIZES
  {
    var h' := if h.spare == 0 then MoreDescriptors(h) else h;
    var p := HighestFree(h'.count);
    if p < 0 || h'.spare == 0 then h' else
    Heap(h'.count[p := 1], h'.chains[c := [p] + h'.chains[c]],
         h'.buckets[p := Bucket(c, Slots(p, c), 0)], h'.spare - 1, h'.descPages)
  }

  function PopFrom(h: Heap, p: int): Heap
    requires p in h.buckets && h.buckets[p].free != []
  {
    var b := h.buckets[p];
    h.(buckets := h.buckets[p := b.(free := b.free[1..], refcnt := b.refcnt + 1)])
  }

  /** The page kmalloc takes its object from, with the heap in which it is on the chain. */
  function Choose(h: Heap, c: int): (r: (Heap, int))
    requires |h.count| == PAGING_PAGES && |h.chains| == NR_SIZES && 0 <= c < NR_SIZES
  {
    var k := FirstFree(h.chains[c], h.buckets);
    if k < |h.chains[c]| then (h, h.chains[c][k])
    else
      var h' := AddPage(h, c);
      (h', if h'.chains[c] == [] then -1 else h'.chains[c][0])
  }

  /** The pages kmalloc needs: none if the chain has a free slot, else one, and one more when there is
      no spare descriptor. */
  function Need(h: Heap, c: int): nat
    requires |h.chains| == NR_SIZES && 0 <= c < NR_SIZES
  {
    if FirstFree(h.chains[c], h.buckets) < |h.chains[c]| then 0 else if h.spare == 0 then 2 else 1
  }

  ghost predicate CanMalloc(h: Heap, len: nat) {
    GoodHeap(h) && len <= PAGE_SIZE && FreePages(h.count) >= Need(h, ClassOf(len))
  }

  /** kmalloc. */
  function Malloc(h: Heap, len: nat): (r: (Heap, int))
    requires CanMalloc(h, len)
  {
    var (h', p) := Choose(h, ClassOf(len));
    ChooseGood(h, ClassOf(len));
    (PopFrom(h', p), h'.buckets[p].free[0])
  }

  /** What Choose guarantees: everything GoodHeap says, but for the refcnt of a page just added. */
  ghost predicate Chosen(h: Heap, h': Heap, c: int, p: int)
    requires |h.count| == PAGING_PAGES && |h.chains| == NR_SIZES && 0 <= c < NR_SIZES
  {
    && p in h'.buckets && h'.buckets[p].cls == c && h'.buckets[p].free != []
    && (h' == h || (
          && p !in h.buckets && IsPfn(p) && h.count[p] == 0
          && h'.buckets == h.buckets[p := Bucket(c, Slots(p, c), 0)]
          && h'.chains == h.chains[c := [p] + h.chains[c]]
          && (   (h.spare > 0 && h'.count == h.count[p := 1] && h'.descPages == h.descPages && h'.spare == h.spare - 1)
              || (h.spare == 0 && h'.spare == DESCS_PER_PAGE - 1
                  && var d := HighestFree(h.count);
                  d >= 0 && d != p && h'.count == h.count[d := 1][p := 1] && h'.descPages == h.descPages + [d]))))
  }

  lemma ChooseGood(h: Heap, c: int)
    requires GoodHeap(h) && 0 <= c < NR_SIZES && FreePages(h.count) >= Need(h, c)
    ensures var (h', p) := Choose(h, c); Chosen(h, h', c, p)
  {
    var k := FirstFree(h.chains[c], h.buckets);
    if k < |h.chains[c]| {
      assert h.chains[c][k] in h.chains[c];
    } else {
      FreePagesPositive(h.count);
      if h.spare == 0 {
        TakePage(h.count, HighestFree(h.count));
        FreePagesPositive(h.count[HighestFree(h.count) := 1]);
      }
    }
  }

  // ---------------------------------------------------------------- free_s

  function IndexOf(chain: seq<int>, p: int): (k: nat)
    ensures k <= |chain|
    ensures k < |chain| ==> chain[k] == p
    ensures p in chain ==> k < |chain|
  {
    if chain == [] || chain[0] == p then 0 else 1 + IndexOf(chain[1..], p)
  }
  function Remove(chain: seq<int>, p: int): seq<int> {
    var k := IndexOf(chain, p);
    if k < |chain| then chain[..k] + chain[k + 1..] else chain
  }

  /** The object goes to the head of its page's free list. */
  function Push(h: Heap, obj: int): Heap
    requires PageOf(obj) in h.buckets
  {
    var b := h.buckets[PageOf(obj)];
    h.(buckets := h.buckets[PageOf(obj) := b.(free := [obj] + b.free, refcnt := b.refcnt - 1)])
  }

  /** A page leaves its chain and is given back, and its descriptor becomes spare. */
  function Release(h: Heap, p: int): Heap
    requires p in h.buckets && 0 <= h.buckets[p].cls < |h.chains| && 0 <= p < |h.count|
  {
    var c := h.buckets[p].cls;
    Heap(h.count[p := h.count[p] - 1], h.chains[c := Remove(h.chains[c], p)],
         h.buckets - {p}, h.spare + 1, h.descPages)
  }

  /** free_s: the page is released with its last live object. */
  function Free(h: Heap, obj: int): Heap
    requires GoodHeap(h) && IsLive(h, obj)
  {
    var h' := Push(h, obj);
    if h'.buckets[PageOf(obj)].refcnt == 0 then Release(h', PageOf(obj)) else h'
  }

  /** `c'` differs from `c` only on pages nobody used. */
  ghost predicate UsedCountsKept(c: seq<int>, c': seq<int>) {
    |c| == |c'| == PAGING_PAGES && forall p :: IsPfn(p) && c[p] != 0 ==> c'[p] == c[p]
  }

  /** The heap does not mind other users taking pages. */
  lemma CountsTaken(h: Heap, c: seq<int>)
    requires GoodHeap(h) && UsedCountsKept(h.count, c)
    ensures GoodHeap(h.(count := c))
  {
  }

  lemma MoreDescriptorsGood(h: Heap)
    requires GoodHeap(h)
    ensures GoodHeap(MoreDescriptors(h))
  {
  }

  // ---------------------------------------------------------------- arithmetic of slots

  lemma SlotIs(page: int, c: int, j: int)
    requires 0 <= c < NR_SIZES && 0 <= j < SlotsIn(c) && IsPfn(page)
    ensures IsSlot(page, c, Slot(page, c, j))
  {
    var s := Size(c);
    Multiples(j, SlotsIn(c) - 1, s);
    assert (SlotsIn(c) - 1) * s == PAGE_SIZE - s;
    assert (j * s) % s == 0 by {
      match c
      case 0 => case 1 => case 2 => case 3 => case 4 => case 5 => case 6 => case 7 => case 8 =>
    }
  }

  lemma {:induction false} Multiples(j: int, k: int, s: int)
    requires 0 <= j <= k && 0 <= s
    ensures 0 <= j * s <= k * s
    ensures j < k ==> j * s + s <= k * s
    decreases k
  {
    if j < k {
      assert k * s == (k - 1) * s + s;
      Multiples(j, k - 1, s);
    } else if 0 < j {
      assert j * s == (j - 1) * s + s;
      Multiples(j - 1, j - 1, s);
    }
  }

  /** Every slot has an index. */
  lemma SlotIndex(page: int, c: int, a: int) returns (j: int)
    requires 0 <= c < NR_SIZES && IsSlot(page, c, a)
    ensures 0 <= j < SlotsIn(c) && a == Slot(page, c, j) && a == Slots(page, c)[j]
  {
    j := (a - PageVa(page)) / Size(c);
    match c
    case 0 => case 1 => case 2 => case 3 => case 4 => case 5 => case 6 => case 7 => case 8 =>
  }

  /** Different slots of a page do not overlap, and a slot ends inside its page. */
  lemma SlotsApart(page: int, c: int, a: int, b: int)
    requires 0 <= c < NR_SIZES && IsSlot(page, c, a) && IsSlot(page, c, b)
    ensures a + Size(c) <= PageVa(page) + PAGE_SIZE
    ensures a != b ==> a + Size(c) <= b || b + Size(c) <= a
  {
    var j := SlotIndex(page, c, a);
    var k := SlotIndex(page, c, b);
    var n, s := SlotsIn(c), Size(c);
    Multiples(j, n, s);
    if j < k {
      Multiples(j, k, s);
    } else {
      Multiples(k, j, s);
    }
  }

  lemma SlotPage(page: int, c: int, a: int)
    requires 0 <= c < NR_SIZES && IsSlot(page, c, a)
    ensures PageOf(a) == page
  {
  }

  lemma SlotsGood(page: int, c: int)
    requires 0 <= c < NR_SIZES && IsPfn(page)
    ensures Distinct(Slots(page, c))
    ensures forall j :: 0 <= j < SlotsIn(c) ==> IsSlot(page, c, Slots(page, c)[j])
  {
    forall j | 0 <= j < SlotsIn(c)
      ensures IsSlot(page, c, Slots(page, c)[j])
    {
      SlotIs(page, c, j);
    }
    forall i, j | 0 <= i < j < SlotsIn(c)
      ensures Slot(page, c, i) != Slot(page, c, j)
    {
      assert Slot(page, c, j) - Slot(page, c, i) == (j - i) * Size(c);
    }
  }

  // ---------------------------------------------------------------- what the operations keep

  /** Live objects never overlap. */
  lemma LiveApart(h: Heap, a: int, b: int)
    requires GoodHeap(h) && IsLive(h, a) && IsLive(h, b) && a != b
    ensures a + SizeAt(h, a) <= b || b + SizeAt(h, b) <= a
  {
    var p, q := PageOf(a), PageOf(b);
    SlotsApart(p, h.buckets[p].cls, a, a);
    SlotsApart(q, h.buckets[q].cls, b, b);
    if p == q {
      SlotsApart(p, h.buckets[p].cls, a, b);
    }
  }

  /** kmalloc keeps the heap valid and adds exactly the object it returns, which is large enough and
      was not live. */
  lemma MallocKeeps(h: Heap, len: nat, x: int)
    requires CanMalloc(h, len)
    ensures var (h', a) := Malloc(h, len);
      && GoodHeap(h')
      && IsLive(h', a) && !IsLive(h, a) && SizeAt(h', a) >= len
      && (IsLive(h', x) <==> IsLive(h, x) || x == a)
      && (IsLive(h, x) ==> SizeAt(h', x) == SizeAt(h, x))
  {
    var c := ClassOf(len);
    var (g, p) := Choose(h, c);
    ChooseGood(h, c);
    PopValid(h, g, c, p);
    PopKeeps(h, g, c, p, x);
  }

  /** With no free slot on the chain kmalloc returns the start of a page that was free, and the slots left are the
      rest of that page in ascending order. */
  lemma FreshPage(h: Heap, len: nat)
    requires CanMalloc(h, len) && FirstFree(h.chains[ClassOf(len)], h.buckets) == |h.chains[ClassOf(len)]|
    ensures var (h', a), size := Malloc(h, len), Size(ClassOf(len));
      && IsPfn(PageOf(a)) && a == PageVa(PageOf(a)) && h.count[PageOf(a)] == 0 && PageOf(a) in h'.buckets
      && h'.buckets[PageOf(a)].refcnt == 1
      && var free := h'.buckets[PageOf(a)].free;
         |free| == PAGE_SIZE / size - 1 && forall j :: 0 <= j < |free| ==> free[j] == a + (j + 1) * size
  {
    var c := ClassOf(len);
    ChooseGood(h, c);
    var (_, p) := Choose(h, c);
    SlotsPerPage(c);
    assert PageOf(PageVa(p)) == p;
  }

  lemma SlotsPerPage(c: int)
    requires 0 <= c < NR_SIZES
    ensures SlotsIn(c) == PAGE_SIZE / Size(c)
  {
    match c
    case 0 => case 1 => case 2 => case 3 => case 4 => case 5 => case 6 => case 7 => case 8 =>
  }

  lemma PopValid(h: Heap, g: Heap, c: int, p: int)
    requires GoodHeap(h) && 0 <= c < NR_SIZES && Chosen(h, g, c, p)
    ensures GoodHeap(PopFrom(g, p))
  {
    hide Slots, HighestFree, GoodBucket;
    BucketPages(h);
    PoppedBucket(h, g, c, p);
  }

  lemma BucketPages(h: Heap)
    requires GoodHeap(h)
    ensures forall q :: q in h.buckets ==> IsPfn(q)
  {
    assert forall q :: q in h.buckets ==> GoodBucket(q, h.buckets[q]);
  }

  lemma PoppedBucket(h: Heap, g: Heap, c: int, p: int)
    requires GoodHeap(h) && 0 <= c < NR_SIZES && Chosen(h, g, c, p)
    ensures GoodBucket(p, PopFrom(g, p).buckets[p])
  {
    hide Slots, IsSlot, HighestFree, GoodChains;
    if g != h {
      SlotsGood(p, c);
    } else {
      assert GoodBucket(p, h.buckets[p]);
    }
  }

  lemma PopKeeps(h: Heap, g: Heap, c: int, p: int, x: int)
    requires GoodHeap(h) && 0 <= c < NR_SIZES && Chosen(h, g, c, p)
    ensures var (h', a) := (PopFrom(g, p), g.buckets[p].free[0]);
      && IsLive(h', a) && !IsLive(h, a) && SizeAt(h', a) == Size(c)
      && (IsLive(h', x) <==> IsLive(h, x) || x == a)
      && (IsLive(h, x) ==> SizeAt(h', x) == SizeAt(h, x))
  {
    hide Slot, PageOf, IsSlot, Slots;
    var a, f := g.buckets[p].free[0], g.buckets[p].free;
    assert f == [a] + f[1..];
    PopValid(h, g, c, p);
    if g == h {
      assert GoodBucket(p, h.buckets[p]);
    } else {
      SlotsGood(p, c);
      if IsSlot(p, c, x) {
        var j := SlotIndex(p, c, x);
      }
    }
    SlotPage(p, c, a);
  }

  /** free_s keeps the heap valid and removes exactly the object it is given. */
  lemma FreeKeeps(h: Heap, obj: int, x: int)
    requires GoodHeap(h) && IsLive(h, obj)
    ensures var h' := Free(h, obj);
      && GoodHeap(h')
      && (IsLive(h', x) <==> IsLive(h, x) && x != obj)
      && (IsLive(h', x) ==> SizeAt(h', x) == SizeAt(h, x))
  {
    var p := PageOf(obj);
    var b := h.buckets[p];
    var b' := b.(free := [obj] + b.free, refcnt := b.refcnt - 1);
    var h' := Free(h, obj);
    if b'.refcnt == 0 {
      RemoveKeeps(h.chains[b.cls], p);
      if IsLive(h, x) && PageOf(x) == p {
        SlotsExhausted(p, b.cls, b'.free, x);
      }
    } else {
      assert GoodBucket(p, b');
    }
  }

  /** Freeing an object right away undoes the kmalloc, when its page was there before: the next request of that
      size gets the same object. */
  lemma FreeUndoesMalloc(h: Heap, len: nat)
    requires CanMalloc(h, len) && FirstFree(h.chains[ClassOf(len)], h.buckets) < |h.chains[ClassOf(len)]|
    ensures var (h', x) := Malloc(h, len);
      && GoodHeap(h') && IsLive(h', x) && PageOf(x) in h.buckets
      && Free(h', x) == h
  {
    var (h', x) := Malloc(h, len);
    MallocKeeps(h, len, x);
    var (_, p) := Choose(h, ClassOf(len));
    ChooseGood(h, ClassOf(len));
    var b := h.buckets[p];
    assert GoodBucket(p, b);
    SlotPage(p, b.cls, x);
    assert [x] + b.free[1..] == b.free;
    assert Free(h', x).buckets == h.buckets;
  }

  lemma RemoveKeeps(chain: seq<int>, p: int)
    requires Distinct(chain)
    ensures Distinct(Remove(chain, p))
    ensures forall q :: q in Remove(chain, p) <==> q in chain && q != p
  {
    var k := IndexOf(chain, p);
    if k < |chain| {
      assert chain == chain[..k] + [p] + chain[k + 1..];
    }
  }

  /** A free list as long as the page has slots holds every slot. */
  lemma SlotsExhausted(page: int, c: int, free: seq<int>, x: int)
    requires 0 <= c < NR_SIZES && IsPfn(page)
    requires Distinct(free) && |free| == SlotsIn(c)
    requires forall i :: 0 <= i < |free| ==> IsSlot(page, c, free[i])
    requires IsSlot(page, c, x)
    ensures x in free
  {
    if x !in free {
      var more := [x] + free;
      forall i | 0 <= i < |more|
        ensures more[i] in Slots(page, c)
      {
        var j := SlotIndex(page, c, more[i]);
      }
      Pigeonhole(more, Slots(page, c));
    }
  }

  lemma {:induction false} Pigeonhole(s: seq<int>, t: seq<int>)
    requires Distinct(s) && forall i :: 0 <= i < |s| ==> s[i] in t
    ensures |s| <= |t|
  {
    if s != [] {
      var k := IndexOf(t, s[0]);
      assert t == t[..k] + [s[0]] + t[k + 1..];
      Pigeonhole(s[1..], t[..k] + t[k + 1..]);
    }
  }

  /** A bucket on a chain has a live object. */
  lemma SomeLive(page: int, b: Bucket) returns (x: int)
    requires GoodBucket(page, b)
    ensures IsSlot(page, b.cls, x) && x !in b.free
  {
    SlotsGood(page, b.cls);
    if forall j :: 0 <= j < SlotsIn(b.cls) ==> Slots(page, b.cls)[j] in b.free {
      Pigeonhole(Slots(page, b.cls), b.free);
    }
    var j :| 0 <= j < SlotsIn(b.cls) && Slots(page, b.cls)[j] !in b.free;
    x := Slots(page, b.cls)[j];
  }

  /** Once every object is freed the chains are empty. */
  lemma NothingLive(h: Heap)
    requires GoodHeap(h) && forall x :: !IsLive(h, x)
    ensures h.buckets == map[] && forall c :: 0 <= c < NR_SIZES ==> h.chains[c] == []
  {
    forall p | p in h.buckets
      ensures false
    {
      var x := SomeLive(p, h.buckets[p]);
      SlotPage(p, h.buckets[p].cls, x);
      assert IsLive(h, x);
    }
    forall c | 0 <= c < NR_SIZES
      ensures h.chains[c] == []
    {
      if h.chains[c] != [] {
        OnChain(h, c, h.chains[c][0]);
      }
    }
  }

  lemma OnChain(h: Heap, c: int, p: int)
    requires GoodHeap(h) && 0 <= c < NR_SIZES && p in h.chains[c]
    ensures p in h.buckets
  {
  }

  /** References to page `q` that are not the allocator's. */
  function Foreign(h: Heap, q: int): int
    requires |h.count| == PAGING_PAGES && IsPfn(q)
  {
    h.count[q] - if q in h.buckets || q in h.descPages then 1 else 0
  }

  lemma MallocForeign(h: Heap, len: nat, q: int)
    requires CanMalloc(h, len) && IsPfn(q)
    ensures GoodHeap(Malloc(h, len).0) && Foreign(Malloc(h, len).0, q) == Foreign(h, q)
  {
    var c := ClassOf(len);
    ChooseGood(h, c);
    var (g, p) := Choose(h, c);
    PopValid(h, g, c, p);
  }

  lemma FreeForeign(h: Heap, obj: int, q: int)
    requires GoodHeap(h) && IsLive(h, obj) && IsPfn(q)
    ensures GoodHeap(Free(h, obj)) && Foreign(Free(h, obj), q) == Foreign(h, q)
  {
    FreeKeeps(h, obj, obj);
  }

  /** free_s gives back at most the page of its object. */
  lemma FreeGivesBack(h: Heap, obj: int)
    requires GoodHeap(h) && IsLive(h, obj)
    ensures var h', p := Free(h, obj), PageOf(obj);
      && p in h.buckets && 0 <= h.buckets[p].cls < NR_SIZES && IsPfn(p)
      && h'.descPages == h.descPages && |h'.count| == PAGING_PAGES
      && (   (h'.buckets.Keys == h.buckets.Keys && h'.count == h.count)
          || (h'.buckets.Keys == h.buckets.Keys - {p} && h'.count == h.count[p := 0]))
  {
    assert GoodBucket(PageOf(obj), h.buckets[PageOf(obj)]);
  }

  /** kmalloc takes at most two pages, which nobody used. */
  lemma MallocPages(h: Heap, len: nat)
    requires CanMalloc(h, len)
    ensures UsedCountsKept(h.count, Malloc(h, len).0.count)
    ensures FreePages(Malloc(h, len).0.count) >= FreePages(h.count) - 2
  {
    ChooseGood(h, ClassOf(len));
  }

  // ---------------------------------------------------------------- runs

  datatype Op = OpMalloc(len: nat) | OpFree(obj: int)

  ghost predicate CanStep(h: Heap, op: Op) {
    match op
    case OpMalloc(len) => CanMalloc(h, len)
    case OpFree(obj) => GoodHeap(h) && IsLive(h, obj)
  }
  ghost function Step(h: Heap, op: Op): Heap
    requires CanStep(h, op)
  {
    match op
    case OpMalloc(len) => Malloc(h, len).0
    case OpFree(obj) => Free(h, obj)
  }
  ghost predicate Legal(h: Heap, ops: seq<Op>)
    decreases |ops|
  {
    ops == [] || (CanStep(h, ops[0]) && Legal(Step(h, ops[0]), ops[1..]))
  }
  ghost function Run(h: Heap, ops: seq<Op>): Heap
    requires Legal(h, ops)
    decreases |ops|
  {
    if ops == [] then h else Run(Step(h, ops[0]), ops[1..])
  }

  /** The objects outstanding after a run, kept by the callers alone. */
  ghost function Outstanding(h: Heap, ops: seq<Op>, live: set<int>): set<int>
    requires Legal(h, ops)
    decreases |ops|
  {
    if ops == [] then live
    else Outstanding(Step(h, ops[0]), ops[1..],
                     match ops[0] case OpMalloc(len) => live + {Malloc(h, len).1} case OpFree(obj) => live - {obj})
  }

  /** Over any run the heap stays valid, its live objects are the outstanding ones, and nobody else's
      pages are touched. */
  lemma {:induction false} RunKeeps(h: Heap, ops: seq<Op>, live: set<int>)
    requires GoodHeap(h) && Legal(h, ops) && forall x :: x in live <==> IsLive(h, x)
    ensures GoodHeap(Run(h, ops))
    ensures forall x :: x in Outstanding(h, ops, live) <==> IsLive(Run(h, ops), x)
    ensures forall q :: IsPfn(q) ==> Foreign(Run(h, ops), q) == Foreign(h, q)
    decreases |ops|
  {
    hide IsLive, Malloc, Free, Foreign, CanMalloc;
    if ops != [] {
      var h' := Step(h, ops[0]);
      StepKeeps(h, ops[0]);
      RunKeeps(h', ops[1..],
               match ops[0] case OpMalloc(len) => live + {Malloc(h, len).1} case OpFree(obj) => live - {obj});
    }
  }

  lemma StepKeeps(h: Heap, op: Op)
    requires CanStep(h, op)
    ensures GoodHeap(Step(h, op))
    ensures op.OpMalloc? ==> forall x :: IsLive(Step(h, op), x) <==> IsLive(h, x) || x == Malloc(h, op.len).1
    ensures op.OpFree? ==> forall x :: IsLive(Step(h, op), x) <==> IsLive(h, x) && x != op.obj
    ensures forall q :: IsPfn(q) ==> Foreign(Step(h, op), q) == Foreign(h, q)
  {
    hide IsLive, Malloc, Free, Foreign, GoodHeap;
    match op
    case OpMalloc(len) =>
      MallocKeeps(h, len, 0);
      forall x { MallocKeeps(h, len, x); }
      forall q | IsPfn(q) { MallocForeign(h, len, q); }
    case OpFree(obj) =>
      FreeKeeps(h, obj, 0);
      forall x { FreeKeeps(h, obj, x); }
      forall q | IsPfn(q) { FreeForeign(h, obj, q); }
  }

  function Empty(count: Counts): Heap {
    Heap(count, seq(NR_SIZES, _ => []), map[], 0, [])
  }

  /** A run from the empty heap that frees all it allocates gives every data page back: the only counts
      that moved are those of descriptor pages. */
  lemma AllFreed(count: Counts, ops: seq<Op>)
    requires Legal(Empty(count), ops) && Outstanding(Empty(count), ops, {}) == {}
    ensures var h := Run(Empty(count), ops);
      && GoodHeap(h)
      && (forall c :: 0 <= c < NR_SIZES ==> h.chains[c] == [])
      && (forall q :: IsPfn(q) ==> h.count[q] == count[q] + if q in h.descPages then 1 else 0)
  {
    var e := Empty(count);
    var h := Run(e, ops);
    RunKeeps(e, ops, {});
    NothingLive(h);
    forall q | IsPfn(q)
      ensures h.count[q] == count[q] + if q in h.descPages then 1 else 0
    {
      assert Foreign(h, q) == Foreign(e, q);
    }
  }
}
