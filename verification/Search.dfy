/** The search loop of free_s, made with interrupts on: complete calls of kmalloc and free_s may come between any two
    of its steps (mm/kmalloc.c). */
module Search {
  import opened PhysMem
  import opened Heap
  import opened Kmalloc

  /** The page whose descriptor the search stands on, or none, when it is about to read the head of a chain. */
  const NONE: int := -1

  /** The search stands on page `q` of chain `c`, or before chain `c`, and has not passed page `p`. */
  ghost predicate OnWay(h: Heap, c: int, q: int, p: int) {
    && |h.chains| == NR_SIZES && 0 <= c < NR_SIZES
    && p in h.buckets && 0 <= h.buckets[p].cls < NR_SIZES && c <= h.buckets[p].cls
    && (q != NONE ==>
          && q in h.buckets && h.buckets[q].cls == c
          && (c == h.buckets[p].cls ==> IndexOf(h.chains[c], q) <= IndexOf(h.chains[c], p)))
  }

  // ---------------------------------------------------------------- what calls do to the order of a chain

  lemma {:induction false} IndexInCons(s: seq<int>, r: int, q: int)
    requires q != r
    ensures IndexOf([r] + s, q) == IndexOf(s, q) + 1
  {
    assert ([r] + s)[1..] == s;
  }

  lemma {:induction false} IndexInRemoved(s: seq<int>, r: int, q: int)
    requires Distinct(s) && q in s && q != r
    ensures IndexOf(Remove(s, r), q) == if IndexOf(s, r) < IndexOf(s, q) then IndexOf(s, q) - 1 else IndexOf(s, q)
  {
    var k, i := IndexOf(s, r), IndexOf(s, q);
    var t := Remove(s, r);
    RemoveKeeps(s, r);
    var j := if k < i then i - 1 else i;
    assert t[j] == q;
    IndexIs(t, q, j);
  }

  lemma {:induction false} IndexIs(s: seq<int>, q: int, j: int)
    requires Distinct(s) && 0 <= j < |s| && s[j] == q
    ensures IndexOf(s, q) == j
  {
    var i := IndexOf(s, q);
    assert q in s;
  }

  /** A call leaves a chain as it is, puts a page at its head, or takes a page out. */
  ghost predicate ChainStep(s: seq<int>, s': seq<int>, gone: set<int>) {
    || s' == s
    || (s' != [] && s'[0] !in s && s' == [s'[0]] + s)
    || (exists r :: r in s && r in gone && s' == Remove(s, r))
  }

  ghost predicate OnChainOf(h: Heap, h': Heap, c: int) {
    && |h.chains| == |h'.chains| == NR_SIZES && 0 <= c < NR_SIZES
    && ChainStep(h.chains[c], h'.chains[c], h.buckets.Keys - h'.buckets.Keys)
  }

  lemma CallOnChain(h: Heap, op: Op, c: int)
    requires GoodHeap(h) && CanStep(h, op) && 0 <= c < NR_SIZES
    ensures GoodHeap(Step(h, op)) && OnChainOf(h, Step(h, op), c)
  {
    hide GoodHeap, CanMalloc, Malloc, Free, OnChainOf, IsLive;
    StepKeeps(h, op);
    match op
    case OpMalloc(len) => MallocOnChain(h, len, c);
    case OpFree(obj) => FreeOnChain(h, obj, c);
  }

  lemma MallocOnChain(h: Heap, len: nat, c: int)
    requires CanMalloc(h, len) && 0 <= c < NR_SIZES
    ensures OnChainOf(h, Malloc(h, len).0, c)
  {
    ChooseGood(h, ClassOf(len));
    hide GoodBucket, Slots, Distinct, Choose;
  }

  lemma FreeOnChain(h: Heap, obj: int, c: int)
    requires GoodHeap(h) && IsLive(h, obj) && 0 <= c < NR_SIZES
    ensures OnChainOf(h, Free(h, obj), c)
  {
    var r := PageOf(obj);
    FreeGivesBack(h, obj);
    hide GoodBucket, Distinct, Remove, IndexOf, PageOf;
    if h.buckets[r].cls == c && r !in Free(h, obj).buckets {
      assert r in h.chains[c];
    }
  }

  lemma PlacesKept(s: seq<int>, s': seq<int>, gone: set<int>, q: int, p: int)
    requires Distinct(s) && ChainStep(s, s', gone) && q in s && p in s && q !in gone && p !in gone
    ensures IndexOf(s, q) <= IndexOf(s, p) ==> IndexOf(s', q) <= IndexOf(s', p)
    ensures |s'| - IndexOf(s', q) <= |s| - IndexOf(s, q)
  {
    hide IndexOf, Remove;
    if s' == s {
    } else if s' != [] && s'[0] !in s && s' == [s'[0]] + s {
      IndexInCons(s, s'[0], q);
      IndexInCons(s, s'[0], p);
    } else {
      var r :| r in s && r in gone && s' == Remove(s, r);
      IndexInRemoved(s, r, q);
      IndexInRemoved(s, r, p);
      OneLess(s, r);
    }
  }

  lemma OneLess(s: seq<int>, r: int)
    requires r in s
    ensures |Remove(s, r)| == |s| - 1
  {
  }

  /** The pages that stay on a chain keep their order. */
  lemma OrderKept(h: Heap, op: Op, c: int, q: int, p: int)
    requires GoodHeap(h) && CanStep(h, op) && 0 <= c < NR_SIZES && q in h.chains[c] && p in h.chains[c]
    requires q in Step(h, op).buckets && p in Step(h, op).buckets
    requires IndexOf(h.chains[c], q) <= IndexOf(h.chains[c], p)
    ensures GoodHeap(Step(h, op)) && IndexOf(Step(h, op).chains[c], q) <= IndexOf(Step(h, op).chains[c], p)
  {
    CallOnChain(h, op, c);
    hide Step, IndexOf, Remove, GoodBucket, CanStep;
    PlacesKept(h.chains[c], Step(h, op).chains[c], h.buckets.Keys - Step(h, op).buckets.Keys, q, p);
  }

  /** Some object of page `q` stays allocated during the calls. */
  ghost predicate Occupied(h: Heap, ops: seq<Op>, q: int) {
    exists x :: Stays(h, ops, x) && PageOf(x) == q
  }

  lemma StepKeepsWay(h: Heap, op: Op, c: int, q: int, p: int, x: int, obj: int)
    requires GoodHeap(h) && CanStep(h, op) && OnWay(h, c, q, p)
    requires IsLive(h, obj) && PageOf(obj) == p && op != OpFree(obj)
    requires q != NONE ==> IsLive(h, x) && PageOf(x) == q && op != OpFree(x)
    ensures OnWay(Step(h, op), c, q, p) && GoodHeap(Step(h, op)) && IsLive(Step(h, op), obj)
    ensures q != NONE ==> IsLive(Step(h, op), x)
    ensures Step(h, op).buckets[p].cls == h.buckets[p].cls
  {
    StepKeeps(h, op);
    StepKeepsObject(h, op, obj);
    if q != NONE {
      StepKeepsObject(h, op, x);
      if c == h.buckets[p].cls {
        assert q in h.chains[c] && p in h.chains[c];
        OrderKept(h, op, c, q, p);
      }
    }
  }

  lemma {:induction false} RunKeepsWay(h: Heap, ops: seq<Op>, c: int, q: int, p: int, x: int, obj: int)
    requires GoodHeap(h) && Legal(h, ops) && OnWay(h, c, q, p)
    requires IsLive(h, obj) && PageOf(obj) == p && OpFree(obj) !in ops
    requires q != NONE ==> IsLive(h, x) && PageOf(x) == q && OpFree(x) !in ops
    ensures OnWay(Run(h, ops), c, q, p) && GoodHeap(Run(h, ops)) && IsLive(Run(h, ops), obj)
    ensures Run(h, ops).buckets[p].cls == h.buckets[p].cls
    decreases |ops|
  {
    hide GoodHeap, OnWay, IsLive, CanStep, Step, PageOf;
    if ops != [] {
      StepKeepsWay(h, ops[0], c, q, p, x, obj);
      RunKeepsWay(Step(h, ops[0]), ops[1..], c, q, p, x, obj);
    }
  }

  // ---------------------------------------------------------------- runs of calls in between

  /** How many pages of the chain are left from `q` on. */
  ghost function Left(h: Heap, c: int, q: int): (n: int)
    requires |h.chains| == NR_SIZES && 0 <= c < NR_SIZES
    ensures n >= 0
  {
    |h.chains[c]| - IndexOf(h.chains[c], q)
  }

  lemma LeftKept(h: Heap, op: Op, c: int, q: int)
    requires GoodHeap(h) && CanStep(h, op) && 0 <= c < NR_SIZES && q in h.chains[c] && q in Step(h, op).buckets
    ensures GoodHeap(Step(h, op)) && Left(Step(h, op), c, q) <= Left(h, c, q)
  {
    CallOnChain(h, op, c);
    hide Step, IndexOf, Remove, GoodBucket, CanStep;
    PlacesKept(h.chains[c], Step(h, op).chains[c], h.buckets.Keys - Step(h, op).buckets.Keys, q, q);
  }

  lemma {:induction false} RunLeft(h: Heap, ops: seq<Op>, c: int, q: int, x: int)
    requires GoodHeap(h) && Legal(h, ops) && 0 <= c < NR_SIZES && q in h.buckets && h.buckets[q].cls == c
    requires Stays(h, ops, x) && PageOf(x) == q
    ensures GoodHeap(Run(h, ops)) && Left(Run(h, ops), c, q) <= Left(h, c, q)
    decreases |ops|
  {
    hide IsLive, CanStep, Step, PageOf, Left;
    if ops != [] {
      assert ops[0] in ops;
      StepKeepsObject(h, ops[0], x);
      LeftKept(h, ops[0], c, q);
      hide GoodHeap;
      RunLeft(Step(h, ops[0]), ops[1..], c, q, x);
    }
  }

  lemma {:induction false} RunConcat(h: Heap, a: seq<Op>, b: seq<Op>)
    requires Legal(h, a) && Legal(Run(h, a), b)
    ensures Legal(h, a + b) && Run(h, a + b) == Run(Run(h, a), b)
    decreases |a|
  {
    hide CanStep, Step;
    if a == [] {
      assert a + b == b;
    } else {
      assert (a + b)[0] == a[0] && (a + b)[1..] == a[1..] + b;
      RunConcat(Step(h, a[0]), a[1..], b);
    }
  }

  /** Where the search goes from there: to the head of the chain or past it, or to the next page of the chain. */
  ghost function Beyond(h: Heap, c: int, q: int, size: int): (int, int)
    requires |h.chains| == NR_SIZES && 0 <= c < NR_SIZES
  {
    var chain := h.chains[c];
    var k := IndexOf(chain, q);
    if q == NONE then if Size(c) < size || chain == [] then (c + 1, NONE) else (c, chain[0])
    else if k + 1 < |chain| then (c, chain[k + 1]) else (c + 1, NONE)
  }

  /** The calls that come between the steps, the first of `batches` before the first step and so on, are possible; none
      frees the object searched for; and none gives back the page on whose descriptor the search stands at that
      moment. When it has found the object, there is one more batch before the critical section. */
  ghost predicate Quiet(h: Heap, c: int, q: int, obj: int, size: int, batches: seq<seq<Op>>)
    decreases |batches|
  {
    batches == [] || (
      var ops := batches[0];
      && Legal(h, ops) && OpFree(obj) !in ops && (q != NONE ==> Occupied(h, ops, q))
      && var h' := Run(h, ops);
      if q == PageOf(obj) then LastQuiet(h', obj, batches[1..])
      else |h'.chains| == NR_SIZES && 0 <= c < NR_SIZES ==>
        Quiet(h', Beyond(h', c, q, size).0, Beyond(h', c, q, size).1, obj, size, batches[1..]))
  }
  ghost predicate LastQuiet(h: Heap, obj: int, batches: seq<seq<Op>>) {
    batches == [] || (Legal(h, batches[0]) && OpFree(obj) !in batches[0])
  }

  /** The state of the search after the calls `done`, started at `v0` and `m0`. */
  ghost predicate Going(kh: KernelHeap, v0: View, m0: Memory, done: seq<Op>, obj: int)
    reads kh, kh.dir, kh.ram.mem, kh.ram.count, kh.v.descs
  {
    && kh.Valid() && Legal(v0.heap, done) && kh.v.heap == Run(v0.heap, done)
    && Undisturbed(v0, m0, kh.v, kh.ram.Mem(), done)
    && OpFree(obj) !in done && IsLive(kh.v.heap, obj)
  }

  /** The calls that come in before the next step of the search. */
  method Interrupt(kh: KernelHeap, batches: seq<seq<Op>>, k: nat, ghost c: int, ghost q: int, ghost obj: int,
                   ghost size: int, ghost v0: View, ghost m0: Memory, ghost done: seq<Op>)
    returns (k': nat, ghost done': seq<Op>)
    requires Going(kh, v0, m0, done, obj) && k <= |batches|
    requires OnWay(kh.v.heap, c, q, PageOf(obj)) && Quiet(kh.v.heap, c, q, obj, size, batches[k..])
    modifies kh, kh.dir, kh.ram.mem, kh.ram.count, kh.v.descs
    ensures Going(kh, v0, m0, done', obj) && k' <= |batches| && OnWay(kh.v.heap, c, q, PageOf(obj))
    ensures kh.v.heap.buckets[PageOf(obj)].cls == old(kh.v.heap.buckets[PageOf(obj)].cls)
    ensures q != NONE ==> q in old(kh.v.desc) && q in kh.v.desc && kh.v.desc[q] == old(kh.v.desc[q])
    ensures q != NONE ==> Left(kh.v.heap, c, q) <= old(Left(kh.v.heap, c, q))
    ensures q != PageOf(obj) ==>
      Quiet(kh.v.heap, Beyond(kh.v.heap, c, q, size).0, Beyond(kh.v.heap, c, q, size).1, obj, size, batches[k'..])
    ensures q == PageOf(obj) ==> LastQuiet(kh.v.heap, obj, batches[k'..])
    ensures fresh(kh.v.descs - old(kh.v.descs)) && old(kh.v.descs) <= kh.v.descs
  {
    k', done' := k, done;
    hide KernelHeap.Valid, Undisturbed, GoodHeap, IsLive, PageOf, OnWay, Left;
    SameKeys(kh);
    if k < |batches| {
      ghost var v1, m1 := kh.v, kh.ram.Mem();
      assert batches[k..][0] == batches[k] && batches[k..][1..] == batches[k + 1..];
      kh.Serve(batches[k]);
      SameKeys(kh);
      k', done' := k + 1, done + batches[k];
      CallsKeepWay(v1, m1, kh.v, kh.ram.Mem(), batches[k], c, q, obj);
      RunConcat(v0.heap, done, batches[k]);
      UndisturbedTwice(v0, m0, v1, m1, kh.v, kh.ram.Mem(), done, batches[k]);
      NoneInNoKey(kh, c, q, obj);
    } else {
      NoneInNoKey(kh, c, q, obj);
      NothingQuiet(kh.v.heap, c, q, obj, size, batches[k..]);
    }
  }

  lemma NothingQuiet(h: Heap, c: int, q: int, obj: int, size: int, batches: seq<seq<Op>>)
    requires |h.chains| == NR_SIZES && 0 <= c < NR_SIZES && batches == []
    ensures Quiet(h, Beyond(h, c, q, size).0, Beyond(h, c, q, size).1, obj, size, batches)
  {
  }

  lemma NoneInNoKey(kh: KernelHeap, c: int, q: int, obj: int)
    requires kh.Valid() && OnWay(kh.v.heap, c, q, PageOf(obj))
    ensures q != NONE ==> q in kh.v.desc
    ensures |kh.v.heap.chains| == NR_SIZES && 0 <= c < NR_SIZES
  {
  }

  /** Calls between two steps leave the search on its way. */
  lemma CallsKeepWay(v: View, m: Memory, v': View, m': Memory, ops: seq<Op>, c: int, q: int, obj: int)
    requires GoodHeap(v.heap) && Legal(v.heap, ops) && v'.heap == Run(v.heap, ops)
    requires OnWay(v.heap, c, q, PageOf(obj)) && IsLive(v.heap, obj) && OpFree(obj) !in ops
    requires Undisturbed(v, m, v', m', ops) && (q != NONE ==> Occupied(v.heap, ops, q))
    ensures OnWay(v'.heap, c, q, PageOf(obj)) && GoodHeap(v'.heap) && IsLive(v'.heap, obj)
    ensures PageOf(obj) in v.heap.buckets && v'.heap.buckets[PageOf(obj)].cls == v.heap.buckets[PageOf(obj)].cls
    ensures q != NONE ==> q in v.desc && q in v'.desc && v'.desc[q] == v.desc[q]
    ensures q != NONE ==> Left(v'.heap, c, q) <= Left(v.heap, c, q)
  {
    hide GoodHeap, IsLive, PageOf, Left;
    var x := obj;
    if q != NONE {
      x :| Stays(v.heap, ops, x) && PageOf(x) == q;
      assert KeepsPlace(v, v', x);
      RunLeft(v.heap, ops, c, q, x);
    }
    RunKeepsWay(v.heap, ops, c, q, PageOf(obj), x, obj);
  }

  // ---------------------------------------------------------------- the search

  lemma HeadOfChain(kh: KernelHeap, c: int)
    requires kh.Valid() && 0 <= c < NR_SIZES
    ensures var chain := kh.v.heap.chains[c];
      && (chain == [] ==> kh.dir[c] == null)
      && (chain != [] ==> chain[0] != NONE && chain[0] in kh.v.desc && kh.dir[c] == kh.v.desc[chain[0]])
  {
    assert ChainLinked(kh.v, c, kh.dir[c]);
    assert forall p :: p in kh.v.heap.buckets ==> GoodBucket(p, kh.v.heap.buckets[p]);
    var chain := kh.v.heap.chains[c];
    if chain != [] {
      OnChain(kh.v.heap, c, chain[0]);
    }
  }

  lemma NextOnChain(kh: KernelHeap, c: int, q: int)
    requires kh.Valid() && q in kh.v.heap.buckets && kh.v.heap.buckets[q].cls == c && 0 <= c < NR_SIZES
    ensures var chain := kh.v.heap.chains[c]; var k := IndexOf(chain, q);
      && q in kh.v.desc && kh.v.desc[q] in kh.v.descs && kh.v.desc[q].page == PageVa(q) && k < |chain|
      && (k + 1 == |chain| ==> kh.v.desc[q].next == null)
      && (k + 1 < |chain| ==>
            chain[k + 1] != NONE && chain[k + 1] in kh.v.desc && kh.v.desc[q].next == kh.v.desc[chain[k + 1]])
  {
    var v := kh.v;
    HasPlace(v.heap, q);
    assert ChainLinked(v, c, kh.dir[c]);
    var chain, k := v.heap.chains[c], IndexOf(v.heap.chains[c], q);
    assert Describes(v.desc[q], q, v.heap.buckets[q]);
    assert v.desc[v.heap.chains[c][k]].next == if k + 1 < |chain| then v.desc[chain[k + 1]] else null;
    if k + 1 < |chain| {
      OnChain(v.heap, c, chain[k + 1]);
      assert GoodBucket(chain[k + 1], v.heap.buckets[chain[k + 1]]);
    }
  }

  lemma WayIn(h: Heap, c: int, p: int, size: int)
    requires GoodHeap(h) && OnWay(h, c, NONE, p) && size <= Size(h.buckets[p].cls)
    ensures var (c', q') := Beyond(h, c, NONE, size);
      && (c' == c + 1 ==> q' == NONE && c < h.buckets[p].cls)
      && (c' != c + 1 ==> c' == c && h.chains[c] != [] && q' == h.chains[c][0] && OnWay(h, c, q', p))
  {
    SizesGrow(c, h.buckets[p].cls);
    HasPlace(h, p);
    if h.chains[c] != [] {
      PlaceIs(h, c, 0, h.chains[c][0]);
      assert GoodBucket(h.chains[c][0], h.buckets[h.chains[c][0]]);
    }
  }

  lemma WayOn(h: Heap, c: int, q: int, p: int, size: int)
    requires GoodHeap(h) && OnWay(h, c, q, p) && q != NONE && q != p
    ensures var (c', q') := Beyond(h, c, q, size);
      && (c' == c + 1 ==> q' == NONE && c < h.buckets[p].cls)
      && (c' != c + 1 ==>
            && c' == c && OnWay(h, c, q', p) && Left(h, c, q') < Left(h, c, q)
            && IndexOf(h.chains[c], q) + 1 < |h.chains[c]| && q' == h.chains[c][IndexOf(h.chains[c], q) + 1])
  {
    var chain := h.chains[c];
    var k := IndexOf(chain, q);
    HasPlace(h, p);
    HasPlace(h, q);
    if k + 1 < |chain| {
      PlaceIs(h, c, k + 1, chain[k + 1]);
      assert GoodBucket(chain[k + 1], h.buckets[chain[k + 1]]);
    }
  }

  lemma GoingFacts(kh: KernelHeap, v0: View, m0: Memory, done: seq<Op>, obj: int, c: int, q: int)
    requires Going(kh, v0, m0, done, obj) && OnWay(kh.v.heap, c, q, PageOf(obj))
    ensures kh.Valid() && GoodHeap(kh.v.heap) && kh.dir.Length == NR_SIZES && |kh.v.heap.chains| == NR_SIZES
    ensures 0 <= c < NR_SIZES && OnWay(kh.v.heap, c, NONE, PageOf(obj))
    ensures PageOf(obj) in kh.v.heap.buckets && PageOf(obj) in kh.v.desc && IsLive(kh.v.heap, obj)
    ensures c <= kh.v.heap.buckets[PageOf(obj)].cls < NR_SIZES
    ensures q != NONE ==> q in kh.v.heap.buckets && q in kh.v.desc && kh.v.heap.buckets[q].cls == c
  {
  }

  lemma BeyondSmall(h: Heap, c: int, size: int)
    requires |h.chains| == NR_SIZES && 0 <= c < NR_SIZES && Size(c) < size
    ensures Beyond(h, c, NONE, size) == (c + 1, NONE)
  {
  }

  lemma BeyondHead(h: Heap, c: int, size: int)
    requires |h.chains| == NR_SIZES && 0 <= c < NR_SIZES && Size(c) >= size
    ensures Beyond(h, c, NONE, size) == if h.chains[c] == [] then (c + 1, NONE) else (c, h.chains[c][0])
  {
  }

  lemma BeyondNext(h: Heap, c: int, q: int, size: int)
    requires |h.chains| == NR_SIZES && 0 <= c < NR_SIZES && q != NONE
    ensures var chain := h.chains[c]; var k := IndexOf(chain, q);
      Beyond(h, c, q, size) == if k + 1 < |chain| then (c, chain[k + 1]) else (c + 1, NONE)
  {
  }

  /** The inner loop of the search, over one chain. */
  method SearchChain(kh: KernelHeap, c: int, page: int, batches: seq<seq<Op>>, k0: nat, obj: int, size: int,
                     ghost v0: View, ghost m0: Memory, ghost done0: seq<Op>)
    returns (found: bool, bdesc: BucketDesc?, prev: BucketDesc?, k: nat, ghost done: seq<Op>)
    requires Going(kh, v0, m0, done0, obj) && k0 <= |batches| && page == PageVa(PageOf(obj))
    requires OnWay(kh.v.heap, c, NONE, PageOf(obj)) && size <= Size(kh.v.heap.buckets[PageOf(obj)].cls)
    requires Quiet(kh.v.heap, Beyond(kh.v.heap, c, NONE, size).0, Beyond(kh.v.heap, c, NONE, size).1, obj, size,
                   batches[k0..])
    modifies kh, kh.dir, kh.ram.mem, kh.ram.count, kh.v.descs
    ensures Going(kh, v0, m0, done, obj) && k <= |batches| && OnWay(kh.v.heap, c, NONE, PageOf(obj))
    ensures PageOf(obj) in kh.v.desc
    ensures kh.v.heap.buckets[PageOf(obj)].cls == old(kh.v.heap.buckets[PageOf(obj)].cls)
    ensures found ==> c == kh.v.heap.buckets[PageOf(obj)].cls && bdesc == kh.v.desc[PageOf(obj)]
    ensures found ==> LastQuiet(kh.v.heap, obj, batches[k..])
    ensures !found ==>
      c < kh.v.heap.buckets[PageOf(obj)].cls && Quiet(kh.v.heap, c + 1, NONE, obj, size, batches[k..])
    ensures prev == null || prev in kh.v.descs
    ensures fresh(kh.v.descs - old(kh.v.descs)) && old(kh.v.descs) <= kh.v.descs
  {
    ghost var p := PageOf(obj);
    hide KernelHeap.Valid, Going, Quiet, LastQuiet, OnWay, Beyond, PageOf, PageVa, GoodHeap;
    GoingFacts(kh, v0, m0, done0, obj, c, NONE);
    WayIn(kh.v.heap, c, p, size);
    k, done, prev, bdesc, found := k0, done0, null, null, false;
    if Size(c) < size {
      BeyondSmall(kh.v.heap, c, size);
      return;
    }
    HeadOfChain(kh, c);
    BeyondHead(kh.v.heap, c, size);
    var d := kh.dir[c];
    ghost var q := if d == null then NONE else kh.v.heap.chains[c][0];
    ghost var left := Left(kh.v.heap, c, q);
    while d != null
      invariant Going(kh, v0, m0, done, obj) && k <= |batches| && OnWay(kh.v.heap, c, NONE, p) && p in kh.v.desc
      invariant p in kh.v.heap.buckets && kh.v.heap.buckets[p].cls == old(kh.v.heap.buckets[p].cls)
      invariant |kh.v.heap.chains| == NR_SIZES && 0 <= c < NR_SIZES
      invariant d == null ==> c < kh.v.heap.buckets[p].cls && Quiet(kh.v.heap, c + 1, NONE, obj, size, batches[k..])
      invariant d != null ==>
        && q != NONE && q in kh.v.desc && d == kh.v.desc[q] && OnWay(kh.v.heap, c, q, p)
        && Quiet(kh.v.heap, c, q, obj, size, batches[k..]) && Left(kh.v.heap, c, q) <= left
      invariant prev == null || prev in kh.v.descs
      invariant fresh(kh.v.descs - old(kh.v.descs)) && old(kh.v.descs) <= kh.v.descs
      decreases d != null, left
    {
      k, done := Interrupt(kh, batches, k, c, q, obj, size, v0, m0, done);
      GoingFacts(kh, v0, m0, done, obj, c, q);
      NextOnChain(kh, c, q);
      SamePageVa(q, p);
      if d.page == page {
        bdesc, found := d, true;
        return;
      }
      WayOn(kh.v.heap, c, q, p, size);
      BeyondNext(kh.v.heap, c, q, size);
      prev := d;
      d := d.next;
      q := Beyond(kh.v.heap, c, q, size).1;
      left := Left(kh.v.heap, c, q);
    }
  }

  /** The search is under way before chain `c`, and `rest` is still to come in between. */
  ghost predicate Searching(kh: KernelHeap, v0: View, m0: Memory, done: seq<Op>, obj: int, size: int, c: int,
                            rest: seq<seq<Op>>)
    reads kh, kh.dir, kh.ram.mem, kh.ram.count, kh.v.descs
  {
    && Going(kh, v0, m0, done, obj) && OnWay(kh.v.heap, c, NONE, PageOf(obj)) && PageOf(obj) != NONE
    && size <= Size(kh.v.heap.buckets[PageOf(obj)].cls)
    && Quiet(kh.v.heap, c, NONE, obj, size, rest)
  }

  /** The search has come to the descriptor `d` of the object's page, on chain `c`. */
  ghost predicate Found(kh: KernelHeap, v0: View, m0: Memory, done: seq<Op>, obj: int, c: int, d: BucketDesc?,
                        rest: seq<seq<Op>>)
    reads kh, kh.dir, kh.ram.mem, kh.ram.count, kh.v.descs
  {
    && Going(kh, v0, m0, done, obj) && LastQuiet(kh.v.heap, obj, rest)
    && PageOf(obj) in kh.v.desc && PageOf(obj) in kh.v.heap.buckets
    && c == kh.v.heap.buckets[PageOf(obj)].cls && d == kh.v.desc[PageOf(obj)]
  }

  /** One turn of the outer loop. */
  method SearchClass(kh: KernelHeap, c: int, page: int, batches: seq<seq<Op>>, k0: nat, obj: int, size: int,
                     ghost v0: View, ghost m0: Memory, ghost done0: seq<Op>)
    returns (found: bool, bdesc: BucketDesc?, prev: BucketDesc?, k: nat, ghost done: seq<Op>)
    requires k0 <= |batches| && Searching(kh, v0, m0, done0, obj, size, c, batches[k0..]) && page == PageVa(PageOf(obj))
    modifies kh, kh.dir, kh.ram.mem, kh.ram.count, kh.v.descs
    ensures k <= |batches| && 0 <= c < NR_SIZES
    ensures found ==> bdesc != null && Found(kh, v0, m0, done, obj, c, bdesc, batches[k..])
    ensures !found ==> Searching(kh, v0, m0, done, obj, size, c + 1, batches[k..])
    ensures prev == null || prev in kh.v.descs
    ensures fresh(kh.v.descs - old(kh.v.descs)) && old(kh.v.descs) <= kh.v.descs
  {
    hide KernelHeap.Valid, Going, Quiet, LastQuiet, Beyond, PageOf, PageVa, GoodHeap;
    k, done := Interrupt(kh, batches, k0, c, NONE, obj, size, v0, m0, done0);
    found, bdesc, prev, k, done := SearchChain(kh, c, page, batches, k, obj, size, v0, m0, done);
  }

  /** The search of free_s with calls in between: it yields what an undisturbed one would yield at its end. */
  method FindInterrupted(kh: KernelHeap, obj: int, size: int, batches: seq<seq<Op>>)
    returns (c: int, bdesc: BucketDesc, prev: BucketDesc?, k: nat, ghost done: seq<Op>)
    requires kh.Valid() && IsLive(kh.v.heap, obj) && size <= SizeAt(kh.v.heap, obj)
    requires Quiet(kh.v.heap, 0, NONE, obj, size, batches)
    modifies kh, kh.dir, kh.ram.mem, kh.ram.count, kh.v.descs
    ensures k <= |batches| && Found(kh, old(kh.v), old(kh.ram.Mem()), done, obj, c, bdesc, batches[k..])
    ensures prev == null || prev in kh.v.descs
    ensures fresh(kh.v.descs - old(kh.v.descs)) && old(kh.v.descs) <= kh.v.descs
  {
    hide KernelHeap.Valid, Searching, Found, Quiet, PageOf, PageVa, IsLive, SizeAt;
    SearchStarts(kh, obj, size, batches);
    ghost var v0, m0 := kh.v, kh.ram.Mem();
    var page := obj - obj % 4096;
    var found, d := false, null;
    k, done, c := 0, [], 0;
    assert batches[0..] == batches;
    while true
      invariant 0 <= c && k <= |batches| && Searching(kh, v0, m0, done, obj, size, c, batches[k..])
      invariant fresh(kh.v.descs - old(kh.v.descs)) && old(kh.v.descs) <= kh.v.descs
      decreases NR_SIZES - c
    {
      found, d, prev, k, done := SearchClass(kh, c, page, batches, k, obj, size, v0, m0, done);
      if found {
        bdesc := d;
        return;
      }
      c := c + 1;
    }
  }

  lemma SearchStarts(kh: KernelHeap, obj: int, size: int, batches: seq<seq<Op>>)
    requires kh.Valid() && IsLive(kh.v.heap, obj) && size <= SizeAt(kh.v.heap, obj)
    requires Quiet(kh.v.heap, 0, NONE, obj, size, batches)
    ensures kh.ram.Valid() && obj - obj % 4096 == PageVa(PageOf(obj))
    ensures Searching(kh, kh.v, kh.ram.Mem(), [], obj, size, 0, batches)
  {
    hide Quiet;
    var p := PageOf(obj);
    assert GoodBucket(p, kh.v.heap.buckets[p]);
    PageStart(obj, p);
    NothingDisturbed(kh.v, kh.ram.Mem());
  }

  /** free_s with calls of kmalloc and free_s between the steps of its search, and between the search and the critical
      section: it still takes the heap, as it is by then, to the one of Free, and disturbs nothing else. */
  method FreeSInterleaved(kh: KernelHeap, obj: int, size: int, batches: seq<seq<Op>>) returns (ghost done: seq<Op>)
    requires kh.Valid() && IsLive(kh.v.heap, obj) && size <= SizeAt(kh.v.heap, obj)
    requires Quiet(kh.v.heap, 0, NONE, obj, size, batches)
    modifies kh, kh.dir, kh.ram.mem, kh.ram.count, kh.v.descs
    ensures kh.Valid() && Legal(old(kh.v.heap), done) && OpFree(obj) !in done
    ensures var h := Run(old(kh.v.heap), done); GoodHeap(h) && IsLive(h, obj) && kh.v.heap == Free(h, obj)
    ensures Undisturbed(old(kh.v), old(kh.ram.Mem()), kh.v, kh.ram.Mem(), done + [OpFree(obj)])
  {
    hide KernelHeap.Valid, LastQuiet, Quiet, Undisturbed, GoodHeap, IsLive, Free, Found;
    SameKeys(kh);
    ghost var v0, m0 := kh.v, kh.ram.Mem();
    var c, bdesc, prev, k;
    c, bdesc, prev, k, done := FindInterrupted(kh, obj, size, batches);
    done := LastBatch(kh, obj, c, bdesc, batches, k, v0, m0, done);
    Commit(kh, obj, c, bdesc, prev, v0, m0, done);
  }

  method Commit(kh: KernelHeap, obj: int, c: int, bdesc: BucketDesc, prev: BucketDesc?, ghost v0: View,
                ghost m0: Memory, ghost done: seq<Op>)
    requires Found(kh, v0, m0, done, obj, c, bdesc, []) && (prev == null || prev in kh.v.descs)
    modifies kh, kh.dir, kh.ram.mem, kh.ram.count, kh.v.descs
    ensures kh.Valid() && Legal(v0.heap, done) && OpFree(obj) !in done
    ensures var h := Run(v0.heap, done); GoodHeap(h) && IsLive(h, obj) && kh.v.heap == Free(h, obj)
    ensures Undisturbed(v0, m0, kh.v, kh.ram.Mem(), done + [OpFree(obj)])
  {
    hide KernelHeap.Valid, Undisturbed, GoodHeap, IsLive, Free, OnlyWord, PageOf;
    SameKeys(kh);
    ghost var v1, m1 := kh.v, kh.ram.Mem();
    kh.CommitFree(obj, c, bdesc, prev);
    SameKeys(kh);
    StepUndisturbed(v1, m1, kh.v, kh.ram.Mem(), OpFree(obj));
    UndisturbedTwice(v0, m0, v1, m1, kh.v, kh.ram.Mem(), done, [OpFree(obj)]);
  }

  method LastBatch(kh: KernelHeap, obj: int, ghost c: int, ghost d: BucketDesc, batches: seq<seq<Op>>, k: nat,
                   ghost v0: View, ghost m0: Memory, ghost done: seq<Op>) returns (ghost done': seq<Op>)
    requires k <= |batches| && Found(kh, v0, m0, done, obj, c, d, batches[k..])
    modifies kh, kh.dir, kh.ram.mem, kh.ram.count, kh.v.descs
    ensures Found(kh, v0, m0, done', obj, c, d, [])
    ensures old(kh.v.descs) <= kh.v.descs && fresh(kh.v.descs - old(kh.v.descs))
  {
    hide KernelHeap.Valid, GoodHeap, IsLive, PageOf;
    SameKeys(kh);
    done' := done;
    if k < |batches| {
      ghost var v1, m1 := kh.v, kh.ram.Mem();
      assert batches[k..][0] == batches[k];
      kh.Serve(batches[k]);
      SameKeys(kh);
      assert Stays(v1.heap, batches[k], obj) && KeepsPlace(v1, kh.v, obj);
      hide Undisturbed;
      done' := done + batches[k];
      RunConcat(v0.heap, done, batches[k]);
      UndisturbedTwice(v0, m0, v1, m1, kh.v, kh.ram.Mem(), done, batches[k]);
    }
  }

  // ---------------------------------------------------------------- a page given back under the search

  /** The search has strayed to a spare descriptor. */
  ghost predicate Astray(kh: KernelHeap, d: BucketDesc)
    reads kh
  {
    exists i :: 0 <= i < |kh.v.spares| && kh.v.spares[i] == d
  }

  /** From there it meets spare descriptors only, and none of them is that of a bucket page. */
  lemma StaysAstray(kh: KernelHeap, d: BucketDesc)
    requires kh.Valid() && Astray(kh, d)
    ensures d.next != null ==> Astray(kh, d.next)
    ensures forall p :: p in kh.v.desc ==> kh.v.desc[p] != d
  {
    var v := kh.v;
    var i :| 0 <= i < |v.spares| && v.spares[i] == d;
    assert v.spares[i].next == if i + 1 < |v.spares| then v.spares[i + 1] else null;
    forall p | p in v.desc
      ensures v.desc[p] != d
    {
      assert Describes(v.desc[p], p, v.heap.buckets[p]);
    }
  }

  /** If the last object of the page is freed while the search stands on its descriptor, the search is astray. */
  method FreeUnderSearch(kh: KernelHeap, x: int) returns (ghost d: BucketDesc)
    requires kh.Valid() && IsLive(kh.v.heap, x) && kh.v.heap.buckets[PageOf(x)].refcnt == 1
    modifies kh, kh.dir, kh.ram.mem, kh.ram.count, kh.v.descs
    ensures kh.Valid() && kh.v.heap == Free(old(kh.v.heap), x)
    ensures PageOf(x) in old(kh.v.desc) && d == old(kh.v.desc[PageOf(x)]) && Astray(kh, d)
  {
    SameKeys(kh);
    d := kh.v.desc[PageOf(x)];
    ghost var v0 := kh.v;
    DescIn(kh, PageOf(x));
    SizePositive(kh.v.heap, x);
    kh.FreeS(x, 0);
    SameKeys(kh);
    NowSpare(kh, v0, PageOf(x), d);
  }

  lemma DescIn(kh: KernelHeap, p: int)
    requires kh.Valid() && p in kh.v.desc
    ensures kh.v.desc[p] in kh.v.descs
    ensures forall q :: q in kh.v.desc && kh.v.desc[q] == kh.v.desc[p] ==> q == p
  {
  }

  lemma NowSpare(kh: KernelHeap, v0: View, p: int, d: BucketDesc)
    requires kh.Valid() && d in kh.v.descs && p !in kh.v.desc
    requires forall q :: q in kh.v.desc ==> q in v0.desc && kh.v.desc[q] == v0.desc[q]
    requires forall q :: q in v0.desc && v0.desc[q] == d ==> q == p
    ensures Astray(kh, d)
  {
    assert Accounted(kh.v);
  }
}
