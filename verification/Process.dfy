/** Process memory: the records of mm_struct, copy_process and delete_process (kernel/task.c). */
module Process {
  import opened PhysMem
  import opened PageTable
  import opened Heap

  /** The key of the page recorded by an element of vma. */
  function VmaKey(v: Vma): (k: Key)
    ensures k.level == 4
  {
    KeyOf(PageNo(v.va), 4)
  }

  /** pgtbl_page lists exactly the tables below the root, each once. */
  ghost predicate TablesRecorded(s: Space) {
    && (forall i, j :: 0 <= i < j < |s.tables| ==> s.tables[i] != s.tables[j])
    && (forall k :: k in s.tables <==> k in s.nodes && 1 <= k.level <= 3)
  }

  /** vma lists user pages, none twice, with their physical addresses. */
  ghost predicate PagesListed(s: Space) {
    && (forall i, j :: 0 <= i < j < |s.vma| ==> VmaKey(s.vma[i]) != VmaKey(s.vma[j]))
    && (forall i :: 0 <= i < |s.vma| ==>
          VmaKey(s.vma[i]) in s.nodes && s.vma[i].pa == PfnToPa(s.nodes[VmaKey(s.vma[i])]))
  }

  /** vma lists exactly the user pages. */
  ghost predicate PagesRecorded(s: Space) {
    && PagesListed(s)
    && (forall k :: k in s.nodes && k.level == 4 ==> exists i :: 0 <= i < |s.vma| && VmaKey(s.vma[i]) == k)
  }

  /** Node `k` is one that delete_process knows of. */
  ghost predicate IsRecorded(s: Space, k: Key) {
    1 <= k.level <= 3 || exists i :: 0 <= i < |s.vma| && VmaKey(s.vma[i]) == k
  }

  lemma GrowTablesRecorded(g: Mapping, k: Key)
    requires TablesRecorded(g.space) && 1 <= k.level
    ensures TablesRecorded(Grow(g, k).space)
  {
    var s, s' := g.space, Grow(g, k).space;
    if s' != s && k.level < 4 {
      assert s'.tables == s.tables + [k];
      forall j
        ensures j in s'.tables <==> j in s'.nodes && 1 <= j.level <= 3
      {
        assert j in s'.tables <==> j in s.tables || j == k;
      }
    }
  }

  lemma {:induction false} PathTablesRecorded(g: Mapping, pn: int, level: nat)
    requires level <= 4 && TablesRecorded(g.space)
    ensures TablesRecorded(GrowPath(g, pn, level).space)
  {
    hide KeyOf;
    if level > 0 {
      PathTablesRecorded(g, pn, level - 1);
      GrowTablesRecorded(GrowPath(g, pn, level - 1), KeyOf(pn, level));
    }
  }

  lemma {:induction false} GrowPathVma(g: Mapping, pn: int, level: nat)
    requires level <= 4
    ensures GrowPath(g, pn, level).space.vma == g.space.vma
  {
    if level > 0 {
      GrowPathVma(g, pn, level - 1);
    }
  }

  /** alloc_user_page keeps the records exact if, and only if, the page is new and vma has a free element,
      or the page was mapped before and vma is full: a page mapped again is recorded again when there is
      room, and a new page is not recorded when there is none. The tables are always recorded. */
  lemma RecordsExactIff(g: Mapping, addr: int)
    requires |g.count| == PAGING_PAGES && FreePages(g.count) >= 4
    requires TablesRecorded(g.space) && PagesRecorded(g.space) && |g.space.vma| <= MAX_USER_PAGES
    ensures TablesRecorded(MapPage(g, addr).space)
    ensures PagesRecorded(MapPage(g, addr).space)
      <==> (KeyOf(PageNo(addr), 4) !in g.space.nodes <==> |g.space.vma| < MAX_USER_PAGES)
  {
    PathTablesRecorded(g, PageNo(addr), 4);
    ListsAll(g.space);
    ListingKept(g, addr);
  }

  /** Mapping a new page leaves the list right. */
  lemma NewPageRecord(g: Mapping, addr: int)
    requires |g.count| == PAGING_PAGES && FreePages(g.count) >= 4 && PagesListed(g.space)
    requires KeyOf(PageNo(addr), 4) !in g.space.nodes
    ensures PagesListed(MapPage(g, addr).space)
  {
    OnePageMore(g, addr);
    var s, s', k := g.space, MapPage(g, addr).space, KeyOf(PageNo(addr), 4);
    hide MapPage, FreePages;
    LastKey(addr, PfnToPa(s'.nodes[k]));
    hide VmaKey, KeyOf, PageNo;
    assert forall i :: 0 <= i < |s.vma| ==> s'.vma[i] == s.vma[i] && VmaKey(s.vma[i]) != k;
  }

  lemma LastKey(addr: int, pa: int)
    ensures VmaKey(Vma(addr, pa)) == KeyOf(PageNo(addr), 4)
  {
  }

  // ---------------------------------------------------------------- any calls of alloc_user_pages

  /** Pages mapped one after the other. */
  function MapAll(g: Mapping, addrs: seq<int>): Mapping {
    if addrs == [] then g else MapPage(MapAll(g, addrs[..|addrs| - 1]), addrs[|addrs| - 1])
  }

  datatype Range = Range(start: int, pages: nat)

  /** Calls of alloc_user_pages, one for each range, and the pages they map in order. */
  function MapRanges(g: Mapping, ranges: seq<Range>): Mapping {
    if ranges == [] then g
    else
      var r := ranges[|ranges| - 1];
      MapPages(MapRanges(g, ranges[..|ranges| - 1]), r.start, r.pages)
  }
  function PagesIn(start: int, n: nat): (s: seq<int>)
    ensures |s| == n
  {
    seq(n, i requires 0 <= i < n => start + i * PAGE_SIZE)
  }
  function AllPages(ranges: seq<Range>): seq<int> {
    if ranges == [] then []
    else AllPages(ranges[..|ranges| - 1]) + PagesIn(ranges[|ranges| - 1].start, ranges[|ranges| - 1].pages)
  }

  lemma {:induction false} MapRange(g: Mapping, a: seq<int>, start: int, n: nat)
    ensures MapAll(g, a + PagesIn(start, n)) == MapPages(MapAll(g, a), start, n)
  {
    hide MapPage;
    var b := a + PagesIn(start, n);
    if n == 0 {
      assert b == a;
    } else {
      assert b[..|b| - 1] == a + PagesIn(start, n - 1) && b[|b| - 1] == start + (n - 1) * PAGE_SIZE;
      hide PagesIn;
      MapRange(g, a, start, n - 1);
    }
  }

  lemma {:induction false} RangesAreAll(g: Mapping, ranges: seq<Range>)
    ensures MapRanges(g, ranges) == MapAll(g, AllPages(ranges))
  {
    hide MapPages, PagesIn;
    if ranges != [] {
      var n := |ranges| - 1;
      RangesAreAll(g, ranges[..n]);
      MapRange(g, AllPages(ranges[..n]), ranges[n].start, ranges[n].pages);
    }
  }

  function LeafAt(addr: int): (k: Key) { KeyOf(PageNo(addr), 4) }

  /** The pages mapped while vma has room are all different and new, and those mapped afterwards are not new. */
  ghost predicate RecordsFit(s: Space, addrs: seq<int>) {
    var room := MAX_USER_PAGES - |s.vma|;
    && (forall i :: 0 <= i < |addrs| && i < room ==> LeafAt(addrs[i]) !in s.nodes)
    && (forall i, j :: 0 <= j < i < |addrs| && i < room ==> LeafAt(addrs[j]) != LeafAt(addrs[i]))
    && (forall i :: 0 <= i < |addrs| && i >= room ==>
          LeafAt(addrs[i]) in s.nodes || IsAmong(addrs[..i], LeafAt(addrs[i])))
  }
  ghost predicate IsAmong(addrs: seq<int>, k: Key) {
    exists j :: 0 <= j < |addrs| && LeafAt(addrs[j]) == k
  }

  /** What holds of the records even when they are not exact: what is listed is mapped, and as long as there is room
      every page is listed. */
  ghost predicate Listing(s: Space) {
    && |s.vma| <= MAX_USER_PAGES
    && (forall i :: 0 <= i < |s.vma| ==>
          VmaKey(s.vma[i]) in s.nodes && s.vma[i].pa == PfnToPa(s.nodes[VmaKey(s.vma[i])]))
    && (|s.vma| < MAX_USER_PAGES ==> forall k :: k in s.nodes && k.level == 4 ==> IsListed(s, k))
  }
  ghost predicate IsListed(s: Space, k: Key) {
    exists i :: 0 <= i < |s.vma| && VmaKey(s.vma[i]) == k
  }

  /** What mapping one page adds, new or not. */
  lemma OnePageMore(g: Mapping, addr: int)
    requires |g.count| == PAGING_PAGES && FreePages(g.count) >= 4
    ensures var s, s', k := g.space, MapPage(g, addr).space, LeafAt(addr);
      && |MapPage(g, addr).count| == PAGING_PAGES && FreePages(MapPage(g, addr).count) >= FreePages(g.count) - 4
      && k in s'.nodes && (forall j :: j in s.nodes ==> j in s'.nodes && s'.nodes[j] == s.nodes[j])
      && (forall j: Key :: j.level == 4 ==> (j in s'.nodes <==> j in s.nodes || j == k))
      && s'.vma == if |s.vma| < MAX_USER_PAGES then s.vma + [Vma(addr, PfnToPa(s'.nodes[k]))] else s.vma
  {
    var pn := PageNo(addr);
    GrowPathVma(g, pn, 4);
    GrowPathGrows(g, pn, 4);
    MapPageExtends(g, addr);
    MapPageEffect(g, addr, KeyOf(pn, 1), KeyOf(pn, 2), KeyOf(pn, 3), KeyOf(pn, 4));
    hide GrowPath, FreePages, PageNo;
  }

  ghost predicate Adds(s: Space, s': Space, k: Key, v: Vma) {
    && k in s'.nodes && k.level == 4 && VmaKey(v) == k && v.pa == PfnToPa(s'.nodes[k])
    && (forall j :: j in s.nodes ==> j in s'.nodes && s'.nodes[j] == s.nodes[j])
    && (forall j: Key :: j.level == 4 ==> (j in s'.nodes <==> j in s.nodes || j == k))
    && s'.vma == if |s.vma| < MAX_USER_PAGES then s.vma + [v] else s.vma
  }

  lemma ListingStays(s: Space, s': Space, k: Key, v: Vma)
    requires Listing(s) && Adds(s, s', k, v)
    ensures Listing(s')
    ensures forall j :: IsListed(s, j) ==> IsListed(s', j)
    ensures |s.vma| < MAX_USER_PAGES ==> IsListed(s', k)
  {
    hide VmaKey;
    forall j | IsListed(s, j)
      ensures IsListed(s', j)
    {
      var i :| 0 <= i < |s.vma| && VmaKey(s.vma[i]) == j;
      assert s'.vma[i] == s.vma[i];
    }
    if |s.vma| < MAX_USER_PAGES {
      assert s'.vma[|s.vma|] == v;
    }
  }

  lemma StaysExact(s: Space, s': Space, k: Key, v: Vma)
    requires Listing(s) && Adds(s, s', k, v)
    requires PagesRecorded(s) && (k !in s.nodes <==> |s.vma| < MAX_USER_PAGES)
    ensures PagesRecorded(s')
  {
    ListingStays(s, s', k, v);
    hide VmaKey;
    forall j | j in s'.nodes && j.level == 4
      ensures IsListed(s', j)
    {
      assert j in s.nodes ==> IsListed(s, j);
    }
  }

  lemma WasExact(s: Space, s': Space, k: Key, v: Vma)
    requires Listing(s) && Adds(s, s', k, v) && PagesRecorded(s')
    ensures PagesRecorded(s) && (k !in s.nodes <==> |s.vma| < MAX_USER_PAGES)
  {
    hide VmaKey;
    assert forall i :: 0 <= i < |s.vma| ==> s'.vma[i] == s.vma[i];
    forall j | j in s.nodes && j.level == 4
      ensures IsListed(s, j)
    {
      assert IsListed(s', j);
    }
    if |s.vma| < MAX_USER_PAGES {
      assert s'.vma[|s.vma|] == v;
      assert k in s.nodes ==> IsListed(s, k);
    } else {
      assert IsListed(s', k);
    }
  }

  /** A record that has gone wrong stays wrong. */
  lemma ListingKept(g: Mapping, addr: int)
    requires |g.count| == PAGING_PAGES && FreePages(g.count) >= 4 && Listing(g.space)
    ensures Listing(MapPage(g, addr).space)
    ensures PagesRecorded(MapPage(g, addr).space)
      <==> PagesRecorded(g.space) && (LeafAt(addr) !in g.space.nodes <==> |g.space.vma| < MAX_USER_PAGES)
  {
    OnePageMore(g, addr);
    hide MapPage, FreePages, PagesRecorded, Listing;
    var s, s', k := g.space, MapPage(g, addr).space, LeafAt(addr);
    var v := Vma(addr, PfnToPa(s'.nodes[k]));
    LastKey(addr, v.pa);
    hide LeafAt, VmaKey;
    ListingStays(s, s', k, v);
    if PagesRecorded(s') {
      WasExact(s, s', k, v);
    }
    if PagesRecorded(s) && (k !in s.nodes <==> |s.vma| < MAX_USER_PAGES) {
      StaysExact(s, s', k, v);
    }
  }

  /** Any calls of alloc_user_pages, from exact records, keep them exact if, and only if, the pages mapped while vma
      has room are all new and those mapped later are not. */
  lemma AllExactIff(g: Mapping, ranges: seq<Range>)
    requires |g.count| == PAGING_PAGES && FreePages(g.count) >= 4 * |AllPages(ranges)|
    requires PagesRecorded(g.space) && |g.space.vma| <= MAX_USER_PAGES
    ensures PagesRecorded(MapRanges(g, ranges).space) <==> RecordsFit(g.space, AllPages(ranges))
  {
    hide MapAll, MapRanges, AllPages;
    RangesAreAll(g, ranges);
    PagesExactIff(g, AllPages(ranges));
  }

  lemma {:induction false} PagesExactIff(g: Mapping, addrs: seq<int>)
    requires |g.count| == PAGING_PAGES && FreePages(g.count) >= 4 * |addrs|
    requires PagesRecorded(g.space) && |g.space.vma| <= MAX_USER_PAGES
    ensures PagesRecorded(MapAll(g, addrs).space) <==> RecordsFit(g.space, addrs)
  {
    hide FreePages, PagesRecorded, Listing, MapPage, RecordsFit;
    if addrs == [] {
      assert RecordsFit(g.space, []) by { FitStep(g.space, []); }
    } else {
      var n := |addrs| - 1;
      PagesExactIff(g, addrs[..n]);
      PagesMapped(g, addrs[..n]);
      ListingKept(MapAll(g, addrs[..n]), addrs[n]);
      FitStep(g.space, addrs);
    }
  }

  ghost predicate IsNew(s: Space, addrs: seq<int>, addr: int) {
    LeafAt(addr) !in s.nodes && !IsAmong(addrs, LeafAt(addr))
  }

  lemma FitStep(s: Space, addrs: seq<int>)
    ensures addrs == [] ==> RecordsFit(s, addrs)
    ensures addrs != [] ==> var n := |addrs| - 1;
      RecordsFit(s, addrs) <==>
        RecordsFit(s, addrs[..n]) && (IsNew(s, addrs[..n], addrs[n]) <==> |s.vma| + n < MAX_USER_PAGES)
  {
    hide LeafAt;
    if addrs != [] {
      var n := |addrs| - 1;
      var b := addrs[..n];
      assert forall i :: 0 <= i < n ==> b[i] == addrs[i] && b[..i] == addrs[..i];
    }
  }

  /** What is mapped and how much is listed after a number of pages. */
  lemma {:induction false} PagesMapped(g: Mapping, addrs: seq<int>)
    requires |g.count| == PAGING_PAGES && FreePages(g.count) >= 4 * |addrs|
    requires PagesRecorded(g.space) && |g.space.vma| <= MAX_USER_PAGES
    ensures var h := MapAll(g, addrs);
      && |h.count| == PAGING_PAGES && FreePages(h.count) >= FreePages(g.count) - 4 * |addrs|
      && Listing(h.space)
      && |h.space.vma| == (if |g.space.vma| + |addrs| < MAX_USER_PAGES then |g.space.vma| + |addrs| else MAX_USER_PAGES)
      && (forall k: Key :: k.level == 4 ==> (k in h.space.nodes <==> k in g.space.nodes || IsAmong(addrs, k)))
  {
    hide FreePages, MapPage, LeafAt, Listing, VmaKey;
    if addrs == [] {
      ListsAll(g.space);
    } else {
      var n := |addrs| - 1;
      PagesMapped(g, addrs[..n]);
      ListingKept(MapAll(g, addrs[..n]), addrs[n]);
      OnePageMore(MapAll(g, addrs[..n]), addrs[n]);
      hide PagesRecorded, IsAmong;
      forall k: Key {
        AmongStep(addrs, k);
      }
    }
  }

  lemma ListsAll(s: Space)
    requires PagesRecorded(s) && |s.vma| <= MAX_USER_PAGES
    ensures Listing(s)
  {
    hide VmaKey;
    assert forall k :: k in s.nodes && k.level == 4 ==> IsListed(s, k);
  }

  lemma AmongStep(addrs: seq<int>, k: Key)
    requires addrs != []
    ensures IsAmong(addrs, k) <==> IsAmong(addrs[..|addrs| - 1], k) || LeafAt(addrs[|addrs| - 1]) == k
  {
    hide LeafAt;
    var n := |addrs| - 1;
    var b := addrs[..n];
    if j :| 0 <= j < n && LeafAt(b[j]) == k {
      assert LeafAt(addrs[j]) == k;
    }
    if j :| 0 <= j < |addrs| && LeafAt(addrs[j]) == k {
      assert j < n ==> LeafAt(b[j]) == k;
    }
  }

  // ---------------------------------------------------------------- delete_process

  const TASK_ZOMBIE: int := 3

  /** The counts after one free_page for each page listed. */
  function DropRefs(c: seq<int>, pages: seq<int>): (r: seq<int>)
    ensures |r| == |c|
    decreases |pages|
  {
    if pages == [] then c
    else if 0 <= pages[0] < |c| then DropRefs(c[pages[0] := c[pages[0]] - 1], pages[1..])
    else DropRefs(c, pages[1..])
  }

  lemma {:induction false} DropRefsCounts(c: seq<int>, pages: seq<int>, p: int)
    requires 0 <= p < |c|
    ensures DropRefs(c, pages)[p] == c[p] - multiset(pages)[p]
    decreases |pages|
  {
    if pages != [] {
      var q := pages[0];
      assert pages == [q] + pages[1..];
      DropRefsCounts(if 0 <= q < |c| then c[q := c[q] - 1] else c, pages[1..], p);
    }
  }

  lemma {:induction false} DropRefsConcat(c: seq<int>, a: seq<int>, b: seq<int>)
    ensures DropRefs(c, a + b) == DropRefs(DropRefs(c, a), b)
    decreases |a|
  {
    if a == [] {
      assert a + b == b;
    } else {
      assert (a + b)[0] == a[0] && (a + b)[1..] == a[1..] + b;
      var q := a[0];
      DropRefsConcat(if 0 <= q < |c| then c[q := c[q] - 1] else c, a[1..], b);
    }
  }

  function LeafPages(vma: seq<Vma>): (s: seq<int>)
    ensures |s| == |vma|
  {
    seq(|vma|, i requires 0 <= i < |vma| => PaToPfn(vma[i].pa))
  }
  function TablePages(s: Space): (t: seq<int>)
    requires forall k :: k in s.tables ==> k in s.nodes
    ensures |t| == |s.tables|
  {
    seq(|s.tables|, i requires 0 <= i < |s.tables| => s.nodes[s.tables[i]])
  }

  /** The pages of the elements of vma in front of the first empty one. */
  function InUsePages(v: seq<Vma>): seq<int> { LeafPages(v[..FirstEmpty(v)]) }

  /** The pages of the pointers that are not null. */
  function PagesAt(t: seq<int>): seq<int> {
    if t == [] then []
    else PagesAt(t[..|t| - 1]) + if t[|t| - 1] != 0 then [PaToPfn(Pa(t[|t| - 1]))] else []
  }

  /** The pages the record arrays name, whatever they hold, and what delete_process gives back, in order. */
  function NamedPages(r: Records): seq<int>
    requires |r.tables| == TABLE_WORDS
  {
    InUsePages(r.vma) + PagesAt(r.tables[..MAX_PGTBL_PAGES])
  }
  function ReleasedPages(r: Records, stack: int): seq<int>
    requires |r.tables| == TABLE_WORDS
  {
    NamedPages(r) + [stack]
  }

  /** There are such pages: mem_map has an element for each. */
  ghost predicate Exist(pages: seq<int>) {
    forall i :: 0 <= i < |pages| ==> IsPfn(pages[i])
  }

  class ProcessMemory {
    var state: int
    var mm: MmStruct?
    const stack: int  // the page that holds the task_struct and the kernel stack

    constructor (stack: int, mm: MmStruct)
      ensures this.stack == stack && this.mm == mm && state == 1
    {
      this.stack, this.mm, state := stack, mm, 1;
    }
  }

  /** delete_process, but for the removal from the task list. */
  method DeleteProcess(ram: Ram, p: ProcessMemory?)
    requires ram.Valid()
    requires p != null && p.state == TASK_ZOMBIE ==>
      && p.mm != null && p.mm.Shape() && p.mm.pgtblPage != ram.count
      && Exist(ReleasedPages(p.mm.Raw(), p.stack))
    modifies ram.count
    ensures p == null || p.state != TASK_ZOMBIE ==> ram.Count() == old(ram.Count())
    ensures p != null && p.state == TASK_ZOMBIE ==>
      ram.Count() == DropRefs(old(ram.Count()), ReleasedPages(p.mm.Raw(), p.stack))
  {
    if p == null || p.state != TASK_ZOMBIE {
      return;
    }
    ghost var c, r := ram.Count(), p.mm.Raw();
    ghost var a, b := InUsePages(r.vma), PagesAt(r.tables[..MAX_PGTBL_PAGES]);
    assert ReleasedPages(r, p.stack) == a + (b + [p.stack]) == a + b + [p.stack];
    ReleasedExist(a, b, p.stack);
    hide InUsePages, PagesAt;
    FreeUserPages(ram, p.mm);
    FreeTables(ram, p.mm);
    PageVaPfn(p.stack);
    ram.FreePage(PageVa(p.stack));
    DropRefsConcat(c, a, b);
    DropRefsConcat(c, a + b, [p.stack]);
    DropOne(DropRefs(c, a + b), p.stack);
  }

  lemma ReleasedExist(a: seq<int>, b: seq<int>, stack: int)
    requires Exist(a + b + [stack])
    ensures Exist(a) && Exist(b) && IsPfn(stack)
  {
    var r := a + b + [stack];
    assert r[|r| - 1] == stack;
    assert forall i :: 0 <= i < |a| ==> r[i] == a[i];
    assert forall i :: 0 <= i < |b| ==> r[|a| + i] == b[i];
  }

  lemma PageVaPfn(p: int)
    ensures PaToPfn(Pa(PageVa(p))) == p
  {
  }

  lemma DropOne(c: seq<int>, p: int)
    requires 0 <= p < |c|
    ensures DropRefs(c, [p]) == c[p := c[p] - 1]
  {
    var d := c[p := c[p] - 1];
    assert [p][1..] == [] && DropRefs(d, []) == d;
  }

  /** The loop over vma, which stops at the first empty element. */
  method FreeUserPages(ram: Ram, mm: MmStruct)
    requires ram.Valid() && mm.Shape() && Exist(InUsePages(mm.vma[..]))
    modifies ram.count
    ensures ram.Count() == DropRefs(old(ram.Count()), InUsePages(mm.vma[..]))
  {
    ghost var c, v := ram.Count(), mm.vma[..];
    ghost var leaves := InUsePages(v);
    var i := 0;
    while i < MAX_USER_PAGES
      invariant 0 <= i <= |leaves| && ram.Count() == DropRefs(c, leaves[..i])
    {
      var pa := mm.vma[i].pa;
      if pa == 0 {
        break;
      }
      assert v[i] == mm.vma[i] && i < FirstEmpty(v) && leaves[i] == PaToPfn(pa);
      assert leaves[..i + 1] == leaves[..i] + [leaves[i]];
      DropRefsConcat(c, leaves[..i], [leaves[i]]);
      DropOne(ram.Count(), leaves[i]);
      ram.FreePage(Va(pa));
      i := i + 1;
    }
    assert leaves[..i] == leaves;
  }

  /** The loop over pgtbl_page, which visits every element. */
  method FreeTables(ram: Ram, mm: MmStruct)
    requires ram.Valid() && mm.Shape() && mm.pgtblPage != ram.count
    requires Exist(PagesAt(mm.pgtblPage[..MAX_PGTBL_PAGES]))
    modifies ram.count
    ensures ram.Count() == DropRefs(old(ram.Count()), PagesAt(mm.pgtblPage[..MAX_PGTBL_PAGES]))
  {
    ghost var c, t := ram.Count(), mm.pgtblPage[..MAX_PGTBL_PAGES];
    var i := 0;
    assert t[..0] == [];
    hide PagesAt;
    PagesSnoc(t, 0);
    while i < MAX_PGTBL_PAGES
      invariant 0 <= i <= MAX_PGTBL_PAGES && ram.Count() == DropRefs(c, PagesAt(t[..i]))
    {
      var va := mm.pgtblPage[i];
      PagesSnoc(t, i);
      if va != 0 {
        DropRefsConcat(c, PagesAt(t[..i]), [PaToPfn(Pa(va))]);
        DropOne(ram.Count(), PaToPfn(Pa(va)));
        ram.FreePage(va);
      }
      i := i + 1;
    }
    assert t[..MAX_PGTBL_PAGES] == t;
  }

  lemma PagesLast(t: seq<int>)
    ensures t == [] ==> PagesAt(t) == []
    ensures t != [] ==> var n := |t| - 1;
      PagesAt(t) == PagesAt(t[..n]) + if t[n] != 0 then [PaToPfn(Pa(t[n]))] else []
  {
  }

  lemma PagesSnoc(t: seq<int>, i: int)
    requires 0 <= i < |t|
    ensures PagesAt([]) == []
    ensures t[i] == 0 ==> PagesAt(t[..i + 1]) == PagesAt(t[..i])
    ensures t[i] != 0 ==> PagesAt(t[..i + 1]) == PagesAt(t[..i]) + [PaToPfn(Pa(t[i]))]
    ensures Exist(PagesAt(t)) && t[i] != 0 ==> IsPfn(PaToPfn(Pa(t[i])))
  {
    hide PagesAt, PaToPfn, Pa;
    PagesLast([]);
    PagesLast(t[..i + 1]);
    assert t[..i + 1][..i] == t[..i];
    if t[i] != 0 {
      PagesPrefix(t, i + 1);
      assert PagesAt(t[..i + 1])[|PagesAt(t[..i])|] == PaToPfn(Pa(t[i]));
    }
  }

  lemma {:induction false} PagesPrefix(t: seq<int>, n: int)
    requires 0 <= n <= |t|
    ensures |PagesAt(t[..n])| <= |PagesAt(t)| && PagesAt(t[..n]) == PagesAt(t)[..|PagesAt(t[..n])|]
    decreases |t| - n
  {
    hide PagesAt;
    if n < |t| {
      PagesLast(t[..n + 1]);
      assert t[..n + 1][..n] == t[..n];
      PagesPrefix(t, n + 1);
    } else {
      assert t[..n] == t;
    }
  }

  lemma {:induction false} OnceEach(s: seq<int>, p: int)
    requires forall i, j :: 0 <= i < j < |s| ==> s[i] != s[j]
    ensures multiset(s)[p] == if p in s then 1 else 0
  {
    if s != [] {
      assert s == [s[0]] + s[1..];
      OnceEach(s[1..], p);
    }
  }

  ghost predicate Injective(nodes: map<Key, int>) {
    forall k, j :: k in nodes && j in nodes && nodes[k] == nodes[j] ==> k == j
  }

  /** The user pages of the record are pages of the tree. */
  lemma LeafPagesAre(s: Space)
    requires PagesListed(s)
    ensures forall i :: 0 <= i < |s.vma| ==>
      VmaKey(s.vma[i]) in s.nodes && LeafPages(s.vma)[i] == s.nodes[VmaKey(s.vma[i])]
  {
    hide VmaKey;
    forall i | 0 <= i < |s.vma|
      ensures LeafPages(s.vma)[i] == s.nodes[VmaKey(s.vma[i])]
    {
      assert PaToPfn(PfnToPa(s.nodes[VmaKey(s.vma[i])])) == s.nodes[VmaKey(s.vma[i])];
    }
  }

  lemma TablePagesAre(s: Space)
    requires TablesRecorded(s)
    ensures forall i :: 0 <= i < |s.tables| ==>
      s.tables[i] in s.nodes && 1 <= s.tables[i].level <= 3 && TablePages(s)[i] == s.nodes[s.tables[i]]
  {
    forall i | 0 <= i < |s.tables|
      ensures s.tables[i] in s.nodes && 1 <= s.tables[i].level <= 3
    {
      assert s.tables[i] in s.tables;
    }
  }

  lemma FirstEmptyIs(v: seq<Vma>, n: int)
    requires 0 <= n <= |v| && (forall j :: 0 <= j < n ==> v[j].pa != 0) && (n < |v| ==> v[n].pa == 0)
    ensures FirstEmpty(v) == n
  {
  }

  ghost predicate OnPages(nodes: map<Key, int>) {
    forall k :: k in nodes ==> IsPfn(nodes[k])
  }

  /** Arrays that hold the records of a space name the pages of its recorded nodes. */
  lemma NamedAre(r: Records, s: Space)
    requires TablesRecorded(s) && PagesListed(s) && OnPages(s.nodes) && Holds(r, s)
    ensures NamedPages(r) == LeafPages(s.vma) + TablePages(s)
  {
    FirstEmptyIs(r.vma, |s.vma|);
    assert r.vma[..|s.vma|] == s.vma;
    TablesNamed(r.tables[..MAX_PGTBL_PAGES], s, MAX_PGTBL_PAGES);
    assert r.tables[..MAX_PGTBL_PAGES][..MAX_PGTBL_PAGES] == r.tables[..MAX_PGTBL_PAGES];
    assert TablePages(s)[..|s.tables|] == TablePages(s);
  }

  lemma {:induction false} TablesNamed(t: seq<int>, s: Space, n: int)
    requires TablesRecorded(s) && OnPages(s.nodes) && |t| == MAX_PGTBL_PAGES && 0 <= n <= |t| && |s.tables| <= |t|
    requires forall i :: 0 <= i < |t| ==>
      t[i] == if i < |s.tables| && s.tables[i] in s.nodes then PageVa(s.nodes[s.tables[i]]) else 0
    ensures PagesAt(t[..n]) == TablePages(s)[..if n < |s.tables| then n else |s.tables|]
  {
    TablePagesAre(s);
    if n > 0 {
      TablesNamed(t, s, n - 1);
      assert t[..n][..n - 1] == t[..n - 1];
      if n <= |s.tables| {
        PageVaPfn(s.nodes[s.tables[n - 1]]);
        assert TablePages(s)[..n] == TablePages(s)[..n - 1] + [TablePages(s)[n - 1]];
      }
    }
  }

  /** The pages named are different pages of the tree. */
  ghost predicate NamesOwn(r: Records, s: Space)
    requires |r.tables| == TABLE_WORDS
  {
    var pages := NamedPages(r);
    && (forall i, j :: 0 <= i < j < |pages| ==> pages[i] != pages[j])
    && (forall i :: 0 <= i < |pages| ==> IsNode(s.nodes, pages[i]))
  }
  ghost predicate IsNode(nodes: map<Key, int>, p: int) {
    exists k :: k in nodes && nodes[k] == p
  }

  /** Records that are right name pages of the tree: those of the nodes recorded. */
  lemma RecordedNamesOwn(r: Records, s: Space)
    requires TablesRecorded(s) && PagesListed(s) && Injective(s.nodes) && OnPages(s.nodes) && Holds(r, s)
    ensures NamesOwn(r, s)
    ensures forall k :: k in s.nodes ==> (s.nodes[k] in NamedPages(r) <==> IsRecorded(s, k))
  {
    hide VmaKey, LeafPages, TablePages, NamedPages, TablesRecorded, PagesListed, IsRecorded;
    NamedAre(r, s);
    ListedOnce(s);
    forall k | k in s.nodes
      ensures s.nodes[k] in NamedPages(r) <==> IsRecorded(s, k)
    {
      ListedAre(s, k);
    }
  }

  /** The page of a node is listed if, and only if, the node is recorded. */
  lemma ListedAre(s: Space, k: Key)
    requires TablesRecorded(s) && PagesListed(s) && Injective(s.nodes) && k in s.nodes
    ensures s.nodes[k] in LeafPages(s.vma) + TablePages(s) <==> IsRecorded(s, k)
  {
    hide VmaKey;
    LeafPagesAre(s);
    TablePagesAre(s);
    var leaves, tables, pages := LeafPages(s.vma), TablePages(s), LeafPages(s.vma) + TablePages(s);
    hide LeafPages, TablePages;
    if IsRecorded(s, k) {
      if 1 <= k.level <= 3 {
        assert k in s.tables;
        var i :| 0 <= i < |s.tables| && s.tables[i] == k;
        assert pages[|leaves| + i] == s.nodes[k];
      } else {
        var i :| 0 <= i < |s.vma| && VmaKey(s.vma[i]) == k;
        assert pages[i] == s.nodes[k];
      }
    }
  }

  lemma ListedOnce(s: Space)
    requires TablesRecorded(s) && PagesListed(s) && Injective(s.nodes)
    ensures var pages := LeafPages(s.vma) + TablePages(s);
      && (forall i, j :: 0 <= i < j < |pages| ==> pages[i] != pages[j])
      && (forall i :: 0 <= i < |pages| ==> IsNode(s.nodes, pages[i]))
  {
    hide VmaKey;
    LeafPagesAre(s);
    TablePagesAre(s);
    hide LeafPages, TablePages;
  }

  /** If the arrays name different pages of the tree, delete_process takes those and the stack page from one
      reference to none, and changes no other count. */
  lemma DeleteReleases(r: Records, s: Space, c: Counts, stack: int, p: int)
    requires |r.tables| == TABLE_WORDS && NamesOwn(r, s) && Allocated(s.nodes, c)
    requires forall k :: k in s.nodes ==> s.nodes[k] != stack
    requires IsPfn(stack) && c[stack] == 1 && IsPfn(p)
    ensures DropRefs(c, ReleasedPages(r, stack))[p] == if p == stack || p in NamedPages(r) then 0 else c[p]
  {
    var pages, l := ReleasedPages(r, stack), NamedPages(r);
    hide NamedPages;
    assert forall i :: 0 <= i < |l| ==> pages[i] == l[i];
    assert p in pages <==> p == stack || p in l;
    OnceEach(pages, p);
    DropRefsCounts(c, pages, p);
  }

  /** When the records are exact, that is everything but the top-level table. */
  lemma AllButTopRecorded(s: Space, k: Key)
    requires PagesRecorded(s) && k in s.nodes && k.level <= 4
    ensures IsRecorded(s, k) <==> k.level > 0
  {
    if k.level == 0 {
      assert forall i :: 0 <= i < |s.vma| ==> VmaKey(s.vma[i]).level == 4;
    }
  }

  /** A page mapped a second time while vma has room is given back twice: its count ends below zero. */
  lemma MappedTwiceFreedTwice(g: Mapping, addr: int, r: Records, stack: int)
    requires |g.count| == PAGING_PAGES && FreePages(g.count) >= 4
    requires PagesRecorded(g.space) && Allocated(g.space.nodes, g.count)
    requires |g.space.vma| < MAX_USER_PAGES && KeyOf(PageNo(addr), 4) in g.space.nodes
    requires Holds(r, MapPage(g, addr).space)
    ensures |MapPage(g, addr).count| == PAGING_PAGES
    ensures DropRefs(MapPage(g, addr).count, ReleasedPages(r, stack))[g.space.nodes[KeyOf(PageNo(addr), 4)]] < 0
  {
    var k, g' := KeyOf(PageNo(addr), 4), MapPage(g, addr);
    var p, pages := g.space.nodes[k], ReleasedPages(r, stack);
    MapPageExtends(g, addr);
    GrowPathVma(g, PageNo(addr), 4);
    hide KeyOf, PageNo, GrowPath;
    var i :| 0 <= i < |g.space.vma| && VmaKey(g.space.vma[i]) == k;
    var n := |g.space.vma|;
    assert g'.space.vma == g.space.vma + [Vma(addr, PfnToPa(p))];
    hide MapPage, VmaKey;
    PrefixNamed(r, g'.space.vma, stack);
    assert PaToPfn(PfnToPa(p)) == p;
    assert multiset(pages)[p] >= 2 by { TwiceIn(pages, i, n); }
    DropRefsCounts(g'.count, pages, p);
  }

  /** The pages listed in vma are named first. */
  lemma PrefixNamed(r: Records, vma: seq<Vma>, stack: int)
    requires IsRecords(r) && HoldsPages(r.vma, vma)
    ensures |ReleasedPages(r, stack)| > |vma|
    ensures forall i :: 0 <= i < |vma| ==> ReleasedPages(r, stack)[i] == PaToPfn(vma[i].pa)
  {
    FirstEmptyIs(r.vma, |vma|);
    var leaves := InUsePages(r.vma);
    assert forall i :: 0 <= i < |vma| ==> leaves[i] == PaToPfn(vma[i].pa);
    hide PagesAt;
  }

  lemma TwiceIn(s: seq<int>, i: int, j: int)
    requires 0 <= i < j < |s| && s[i] == s[j]
    ensures multiset(s)[s[i]] >= 2
  {
    assert s == s[..j] + [s[j]] + s[j + 1..];
    assert s[..j][i] == s[i];
    assert s[i] in multiset(s[..j]);
  }

  // ---------------------------------------------------------------- copy_process

  const USER_MAX: int := 0x4000_0000
  const MM_STRUCT_SIZE: int := 328

  /** The nodes sit on pages nobody used at counts `c`. */
  ghost predicate NewPages(nodes: map<Key, int>, c: Counts) {
    forall k :: k in nodes ==> IsPfn(nodes[k]) && c[nodes[k]] == 0
  }

  /** The spaces copy_process goes through: the bare top-level table, the stack, the image. */
  function NewSpace(root: int): Space { Space(map[Key(0, 0) := root], [], []) }

  function WithStack(root: int, c: Counts): Mapping {
    MapPages(Mapping(NewSpace(root), c), USER_MAX - 4096, 1)
  }

  function WithImage(root: int, c: Counts, n: nat): Mapping { MapPages(WithStack(root, c), 0, n) }

  const STACK_KEY: Key := Key(4, 0x3_ffff)

  /** A node that is not there takes a page, and one that is there does not. */
  lemma GrowEffect(g: Mapping, k: Key)
    requires FreePages(g.count) > 0
    ensures var g' := Grow(g, k);
      && g'.space.nodes.Keys == g.space.nodes.Keys + {k}
      && g'.space.tables == (if k !in g.space.nodes && k.level < 4 then g.space.tables + [k] else g.space.tables)
      && g'.space.vma == g.space.vma && |g'.count| == |g.count|
      && FreePages(g'.count) >= FreePages(g.count) - 1
      && (k in g.space.nodes ==> g' == g)
  {
    FreePagesPositive(g.count);
    TakePage(g.count, HighestFree(g.count));
  }

  /** alloc_user_page for page number `pn`, node by node. */
  lemma MapPageEffect(g: Mapping, addr: int, k1: Key, k2: Key, k3: Key, k4: Key)
    requires FreePages(g.count) >= 4
    requires var pn := PageNo(addr);
      k1 == KeyOf(pn, 1) && k2 == KeyOf(pn, 2) && k3 == KeyOf(pn, 3) && k4 == KeyOf(pn, 4)
    ensures var s, s' := g.space, MapPage(g, addr).space;
      && s'.nodes.Keys == s.nodes.Keys + {k1, k2, k3, k4}
      && s'.tables == s.tables + (if k1 in s.nodes then [] else [k1]) + (if k2 in s.nodes then [] else [k2])
                               + (if k3 in s.nodes then [] else [k3])
      && |s'.vma| == (if |s.vma| < MAX_USER_PAGES then |s.vma| + 1 else |s.vma|)
      && |MapPage(g, addr).count| == |g.count|
      && FreePages(MapPage(g, addr).count) >= FreePages(g.count) - 4
  {
    GrowPathSteps(g, PageNo(addr));
    hide Grow, FreePages, KeyOf, PageNo, GrowPath;
    GrowEffect(g, k1);
    var g1 := Grow(g, k1);
    GrowEffect(g1, k2);
    var g2 := Grow(g1, k2);
    GrowEffect(g2, k3);
    var g3 := Grow(g2, k3);
    GrowEffect(g3, k4);
    var s := g.space;
    assert s.tables + (if k1 in s.nodes then [] else [k1]) == g1.space.tables;
    assert g1.space.tables + (if k2 in s.nodes then [] else [k2]) == g2.space.tables;
    assert g2.space.tables + (if k3 in s.nodes then [] else [k3]) == g3.space.tables;
  }

  /** The tables on the way to the stack. */
  lemma StackTables(root: int, c: Counts)
    requires FreePages(c) >= 4
    ensures var g := WithStack(root, c);
      && g.space.tables == [Key(1, 0), Key(2, 0), Key(3, 511)]
      && g.space.nodes.Keys == {Key(0, 0), Key(1, 0), Key(2, 0), Key(3, 511), STACK_KEY}
      && |g.space.vma| == 1
      && |g.count| == PAGING_PAGES && FreePages(g.count) >= FreePages(c) - 4
  {
    var g0 := Mapping(NewSpace(root), c);
    assert PageNo(USER_MAX - 4096) == 0x3_ffff;
    assert MapPages(g0, USER_MAX - 4096, 0) == g0;
    hide FreePages, GrowPath, Grow, MapPage;
    MapPageEffect(g0, USER_MAX - 4096, Key(1, 0), Key(2, 0), Key(3, 511), STACK_KEY);
  }

  /** The tables and user pages of a stack and `n` image pages, from `free` free pages. */
  ghost predicate HasImage(g: Mapping, free: nat, n: nat) {
    && |g.space.tables| == 3 + (n + 511) / 512
    && |g.space.vma| == (if n < MAX_USER_PAGES then n + 1 else MAX_USER_PAGES)
    && (forall k :: k in g.space.nodes ==>
          k in {Key(0, 0), Key(1, 0), Key(2, 0), Key(3, 511), STACK_KEY}
          || (k.level == 3 && 0 <= k.prefix && k.prefix * 512 < n) || (k.level == 4 && 0 <= k.prefix < n))
    && Key(1, 0) in g.space.nodes && Key(2, 0) in g.space.nodes
    && (n > 0 ==> Key(3, (n - 1) / 512) in g.space.nodes)
    && FreePages(g.count) >= free - 4 - 4 * n && |g.count| == PAGING_PAGES
  }

  /** An image of `n` pages from address 0 needs one more table for every 512 pages. */
  lemma {:induction false} ImageTables(root: int, c: Counts, n: nat)
    requires FreePages(c) >= 4 + 4 * n && n <= 959
    ensures HasImage(WithImage(root, c, n), FreePages(c), n)
  {
    hide FreePages, GrowPath, Grow, MapPage, WithStack;
    StackTables(root, c);
    if n > 0 {
      ImageTables(root, c, n - 1);
      hide HasImage;
      NextTables(WithImage(root, c, n - 1), FreePages(c), n);
    }
  }

  lemma NextTables(h: Mapping, free: nat, n: nat)
    requires 0 < n <= 959 && free >= 4 + 4 * n && HasImage(h, free, n - 1)
    ensures HasImage(MapPage(h, (n - 1) * PAGE_SIZE), free, n)
  {
    hide FreePages, MapPage;
    PageNumber(n - 1);
    MapPageEffect(h, (n - 1) * PAGE_SIZE, Key(1, 0), Key(2, 0), Key(3, (n - 1) / 512), Key(4, n - 1));
    Blocks(n);
  }

  lemma Blocks(n: nat)
    requires n > 0
    ensures var q := (n - 1) / 512;
      && 0 <= q && q * 512 < n
      && (if q * 512 == n - 1 then (n + 511) / 512 == q + 1 && (n + 510) / 512 == q
          else n > 1 && (n - 2) / 512 == q && (n + 511) / 512 == (n + 510) / 512)
  {
    var q := (n - 1) / 512;
    assert (n + 511) / 512 == (n - 1) / 512 + 1;
    assert n > 1 ==> (n + 510) / 512 == (n - 2) / 512 + 1;
  }

  lemma PageNumber(i: int)
    requires 0 <= i < 0x3_ffff
    ensures var pn := PageNo(i * PAGE_SIZE);
      && KeyOf(pn, 1) == Key(1, 0) && KeyOf(pn, 2) == Key(2, 0)
      && KeyOf(pn, 3) == Key(3, i / 512) && KeyOf(pn, 4) == Key(4, i)
  {
    assert i * 0x1000 / 0x1000 == i;
  }

  /** Every page of the tree was free at counts `c`, and is all that was taken since. */
  ghost predicate Claims(g: Mapping, c: Counts) {
    && |g.count| == PAGING_PAGES && Injective(g.space.nodes)
    && (forall k :: k in g.space.nodes ==>
          IsPfn(g.space.nodes[k]) && c[g.space.nodes[k]] == 0 && g.count[g.space.nodes[k]] == 1)
    && (forall p :: IsPfn(p) ==> g.count[p] == c[p] || exists k :: k in g.space.nodes && g.space.nodes[k] == p)
  }

  lemma GrowClaims(g: Mapping, k: Key, c: Counts)
    requires Claims(g, c)
    ensures Claims(Grow(g, k), c)
  {
    var g', p := Grow(g, k), HighestFree(g.count);
    if g' != g {
      assert forall j :: j in g.space.nodes ==> g.space.nodes[j] != p;
      assert c[p] == 0;
      forall q | IsPfn(q)
        ensures g'.count[q] == c[q] || exists j :: j in g'.space.nodes && g'.space.nodes[j] == q
      {
        if q == p {
          assert g'.space.nodes[k] == q;
        } else if g.count[q] != c[q] {
          var j :| j in g.space.nodes && g.space.nodes[j] == q;
          assert g'.space.nodes[j] == q;
        }
      }
    }
  }

  lemma {:induction false} PathClaims(g: Mapping, pn: int, level: nat, c: Counts)
    requires level <= 4 && Claims(g, c)
    ensures Claims(GrowPath(g, pn, level), c)
  {
    hide KeyOf, Claims, Grow;
    if level > 0 {
      PathClaims(g, pn, level - 1, c);
      GrowClaims(GrowPath(g, pn, level - 1), KeyOf(pn, level), c);
    }
  }

  lemma {:induction false} RangeClaims(g: Mapping, start: int, n: nat, c: Counts)
    requires Claims(g, c)
    ensures Claims(MapPages(g, start, n), c)
  {
    if n > 0 {
      RangeClaims(g, start, n - 1, c);
      PathClaims(MapPages(g, start, n - 1), PageNo(start + (n - 1) * PAGE_SIZE), 4, c);
    }
  }

  /** What a new process's tree takes, and that its records are right. */
  lemma ImageClaims(root: int, c: Counts, n: nat)
    requires IsPfn(root) && c[root] == 0
    ensures Claims(WithImage(root, c[root := 1], n), c)
  {
    var g := Mapping(NewSpace(root), c[root := 1]);
    forall q | IsPfn(q)
      ensures g.count[q] == c[q] || exists j :: j in g.space.nodes && g.space.nodes[j] == q
    {
      assert g.space.nodes[Key(0, 0)] == root;
    }
    hide Claims, MapPages;
    RangeClaims(g, USER_MAX - 4096, 1, c);
    RangeClaims(WithStack(root, c[root := 1]), 0, n, c);
  }

  lemma StackRecords(root: int, c: Counts)
    requires FreePages(c) >= 4
    ensures PagesListed(WithStack(root, c).space)
    ensures TablesRecorded(WithStack(root, c).space) && PagesRecorded(WithStack(root, c).space)
  {
    var g := Mapping(NewSpace(root), c);
    assert MapPages(g, USER_MAX - 4096, 0) == g;
    assert KeyOf(PageNo(USER_MAX - 4096), 4) == STACK_KEY;
    RecordsExactIff(g, USER_MAX - 4096);
  }

  lemma ListsStack(root: int, c: Counts)
    requires FreePages(c) >= 4
    ensures Listing(WithStack(root, c).space)
  {
    hide FreePages, WithStack, PagesRecorded, Listing;
    StackRecords(root, c);
    StackTables(root, c);
    ListsAll(WithStack(root, c).space);
  }

  lemma PathTables(g: Mapping, addr: int)
    requires TablesRecorded(g.space)
    ensures TablesRecorded(MapPage(g, addr).space)
  {
    PathTablesRecorded(g, PageNo(addr), 4);
  }

  /** Page `n` of an image is a new one. */
  lemma NextImagePage(root: int, c: Counts, n: nat)
    requires FreePages(c) >= 4 + 4 * n && 0 < n <= 959
    ensures var h := WithImage(root, c, n - 1);
      && WithImage(root, c, n) == MapPage(h, (n - 1) * PAGE_SIZE)
      && |h.count| == PAGING_PAGES && FreePages(h.count) >= 4
      && |h.space.vma| == (if n < MAX_USER_PAGES then n else MAX_USER_PAGES)
      && KeyOf(PageNo((n - 1) * PAGE_SIZE), 4) !in h.space.nodes
  {
    hide FreePages, WithStack, KeyOf, PageNo, MapPage;
    ImageTables(root, c, n - 1);
    PageNumber(n - 1);
  }

  /** The records of a new process are exact if its image has at most fifteen pages, and otherwise list the
      stack and the first fifteen. */
  lemma {:induction false} ImageRecords(root: int, c: Counts, n: nat)
    requires FreePages(c) >= 4 + 4 * n && n <= 959
    ensures var s := WithImage(root, c, n).space;
      && TablesRecorded(s) && PagesListed(s) && Listing(s)
      && (PagesRecorded(s) <==> n < MAX_USER_PAGES)
  {
    hide Listing, PagesListed, PagesRecorded, TablesRecorded, FreePages, WithStack, KeyOf, PageNo, MapPage;
    if n == 0 {
      StackRecords(root, c);
      ListsStack(root, c);
    } else {
      hide WithImage;
      ImageRecords(root, c, n - 1);
      NextImagePage(root, c, n);
      var h := WithImage(root, c, n - 1);
      PathTables(h, (n - 1) * PAGE_SIZE);
      NewPageRecord(h, (n - 1) * PAGE_SIZE);
      ListingKept(h, (n - 1) * PAGE_SIZE);
    }
  }

  /** What copy_process makes of the heap: the pages and slot it takes, in the order it takes them. */
  datatype Created = Created(heap: Heap, slot: int, stack: int, space: Space)

  ghost predicate CanCreate(h: Heap, size: nat) {
    GoodHeap(h) && FreePages(h.count) >= 8 + 4 * PagesFor(size)
  }

  ghost function HeapWithStack(h: Heap): Heap
    requires |h.count| == PAGING_PAGES && FreePages(h.count) > 0
  {
    FreePagesPositive(h.count);
    h.(count := h.count[HighestFree(h.count) := 1])
  }

  lemma StackTaken(h: Heap, size: nat)
    requires CanCreate(h, size)
    ensures var h1 := HeapWithStack(h);
      && UsedCountsKept(h.count, h1.count) && CanMalloc(h1, MM_STRUCT_SIZE)
      && FreePages(h1.count) == FreePages(h.count) - 1
      && FreePages(Malloc(h1, MM_STRUCT_SIZE).0.count) >= 5 + 4 * PagesFor(size)
      && GoodHeap(Malloc(h1, MM_STRUCT_SIZE).0)
      && UsedCountsKept(h1.count, Malloc(h1, MM_STRUCT_SIZE).0.count)
  {
    var h1 := HeapWithStack(h);
    FreePagesPositive(h.count);
    TakePage(h.count, HighestFree(h.count));
    CountsTaken(h, h1.count);
    MallocPages(h1, MM_STRUCT_SIZE);
    MallocKeeps(h1, MM_STRUCT_SIZE, 0);
  }

  ghost function Create(h: Heap, size: nat): Created
    requires CanCreate(h, size)
  {
    StackTaken(h, size);
    var (h2, slot) := Malloc(HeapWithStack(h), MM_STRUCT_SIZE);
    var root := HighestFree(h2.count);
    FreePagesPositive(h2.count);
    var g := WithImage(root, h2.count[root := 1], PagesFor(size));
    Created(h2.(count := g.count), slot, HighestFree(h.count), g.space)
  }

  lemma EmptyTree(m: Memory, root: int)
    requires IsPfn(root) && ZeroPage(m, root)
    ensures Tree(m, NewSpace(root).nodes)
  {
    assert Table(m, NewSpace(root).nodes, Key(0, 0));
  }

  lemma AtMostAll(c: Counts)
    ensures FreePages(c) <= PAGING_PAGES
  {
    assert |multiset(c)| == |c|;
    assert multiset(c)[0] <= |multiset(c)| by { CountAtMost(c); }
  }

  lemma {:induction false} CountAtMost(c: seq<int>)
    ensures multiset(c)[0] <= |c|
  {
    if c != [] {
      assert c == [c[0]] + c[1..];
      CountAtMost(c[1..]);
    }
  }
}
