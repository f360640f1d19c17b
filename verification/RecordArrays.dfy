/** The record arrays of a new process, when its mm_struct lies in memory that kmalloc did not clear. */
module RecordArrays {
  import opened PhysMem
  import opened PageTable
  import opened Heap
  import opened Process

  /** What becomes of the arrays in copy_process: first the stack is recorded, then the image. */
  function RecordImage(r: Records, root: int, c: Counts, n: nat): (r': Records)
    requires |r.tables| == TABLE_WORDS
    ensures |r'.vma| == |r.vma| && |r'.tables| == |r.tables|
  {
    RecordPages(RecordPages(r, Mapping(NewSpace(root), c), USER_MAX - 4096, 1), WithStack(root, c), 0, n)
  }

  /** The condition on the memory of the slot: the elements of pgtbl_page are null but for the second and
      third, which are overwritten, and no element of vma is in use. Only an image that fills vma leaves another
      way, which is that the elements in use come last and are already those it would get. */
  ghost predicate SlotFits(r: Records, s: Space)
    requires IsRecords(r)
  {
    && r.tables[0] == 0 && (forall j :: 3 <= j < MAX_PGTBL_PAGES ==> r.tables[j] == 0)
    && exists i :: FitsFrom(r.vma, s.vma, i)
  }

  ghost predicate FitsFrom(v: seq<Vma>, vma: seq<Vma>, i: int)
    requires |v| == MAX_USER_PAGES
  {
    && 0 <= i <= MAX_USER_PAGES
    && (forall j :: 0 <= j < i ==> v[j].pa == 0)
    && (i < MAX_USER_PAGES ==> |vma| == MAX_USER_PAGES && v[i..] == vma[i..])
  }

  // ---------------------------------------------------------------- vma

  /** Entries put into vma one after the other. */
  function Fill(v: seq<Vma>, l: seq<Vma>): (v': seq<Vma>)
    ensures |v'| == |v|
  {
    if l == [] then v else PutVma(Fill(v, l[..|l| - 1]), l[|l| - 1])
  }

  /** Entries with different addresses, all on pages. */
  ghost predicate IsEntryList(l: seq<Vma>) {
    && (forall i :: 0 <= i < |l| ==> l[i].pa != 0)
    && (forall i, j :: 0 <= i < j < |l| ==> l[i] != l[j])
  }

  function FirstSixteen(l: seq<Vma>): seq<Vma> {
    if |l| <= MAX_USER_PAGES then l else l[..MAX_USER_PAGES]
  }

  /** An element in use is never overwritten. */
  lemma {:induction false} FillKeeps(v: seq<Vma>, l: seq<Vma>, j: int)
    requires 0 <= j < |v| && v[j].pa != 0
    ensures Fill(v, l)[j] == v[j]
  {
    if l != [] {
      FillKeeps(v, l[..|l| - 1], j);
    }
  }

  lemma {:induction false} FillMore(v: seq<Vma>, l: seq<Vma>, k: int, j: int)
    requires 0 <= k <= |l| && 0 <= j < |v| && Fill(v, l[..k])[j].pa != 0
    ensures Fill(v, l)[j] == Fill(v, l[..k])[j]
    decreases |l| - k
  {
    if k < |l| {
      assert l[..k + 1][..k] == l[..k];
      FillMore(v, l, k + 1, j);
    } else {
      assert l[..k] == l;
    }
  }

  /** As long as the elements are empty, the entries go in order. */
  lemma {:induction false} FillFront(v: seq<Vma>, l: seq<Vma>, k: int)
    requires 0 <= k <= |l| && k <= |v| && IsEntryList(l)
    requires forall j :: 0 <= j < k ==> v[j].pa == 0
    ensures Fill(v, l[..k]) == l[..k] + v[k..]
  {
    if k > 0 {
      FillFront(v, l, k - 1);
      assert l[..k][..k - 1] == l[..k - 1];
      var u := l[..k - 1] + v[k - 1..];
      assert forall j :: 0 <= j < k - 1 ==> u[j] == l[j];
      assert u[k - 1] == v[k - 1];
      assert FirstEmpty(u) == k - 1;
      assert u[k - 1 := l[k - 1]] == l[..k] + v[k..];
    } else {
      assert v[0..] == v;
    }
  }

  /** Filling gives the listing if, and only if, the array fits. */
  lemma FillIff(v: seq<Vma>, l: seq<Vma>)
    requires |v| == MAX_USER_PAGES && IsEntryList(l)
    ensures HoldsPages(Fill(v, l), FirstSixteen(l)) <==> exists i :: FitsFrom(v, FirstSixteen(l), i)
  {
    var i := FirstInUse(v);
    if HoldsPages(Fill(v, l), FirstSixteen(l)) {
      FitsIf(v, l, i);
      assert FitsFrom(v, FirstSixteen(l), i);
    }
    if i :| FitsFrom(v, FirstSixteen(l), i) {
      FitsFills(v, l, i);
    }
  }

  function FirstInUse(v: seq<Vma>): (i: nat)
    ensures i <= |v| && (i < |v| ==> v[i].pa != 0)
    ensures forall j :: 0 <= j < i ==> v[j].pa == 0
  {
    if v == [] || v[0].pa != 0 then 0 else 1 + FirstInUse(v[1..])
  }

  lemma FitsFills(v: seq<Vma>, l: seq<Vma>, i: int)
    requires |v| == MAX_USER_PAGES && IsEntryList(l) && FitsFrom(v, FirstSixteen(l), i)
    ensures HoldsPages(Fill(v, l), FirstSixteen(l))
  {
    var k := if |l| < i then |l| else i;
    FillFront(v, l, k);
    if i < MAX_USER_PAGES {
      assert forall j :: i <= j < MAX_USER_PAGES ==> v[j] == v[i..][j - i] && l[j] == FirstSixteen(l)[i..][j - i];
    }
    forall j | 0 <= j < MAX_USER_PAGES && j < |l|
      ensures Fill(v, l)[j] == l[j]
    {
      assert (l[..k] + v[k..])[j] == l[j];
      FillMore(v, l, k, j);
    }
    if |l| < MAX_USER_PAGES {
      assert l[..k] == l;
    }
  }

  lemma FitsIf(v: seq<Vma>, l: seq<Vma>, i: int)
    requires |v| == MAX_USER_PAGES && IsEntryList(l) && i == FirstInUse(v)
    requires HoldsPages(Fill(v, l), FirstSixteen(l))
    ensures FitsFrom(v, FirstSixteen(l), i)
  {
    hide Fill, IsEntryList;
    if i < MAX_USER_PAGES {
      InUseHolds(v, l, i);
      forall j | i <= j < MAX_USER_PAGES
        ensures v[j].pa != 0
      {
        if v[j].pa == 0 {
          EntryMisplaced(v, l, i, j);
        }
      }
      forall j | i <= j < MAX_USER_PAGES
        ensures j < |l| && v[j] == l[j]
      {
        InUseHolds(v, l, j);
      }
      InUseHolds(v, l, MAX_USER_PAGES - 1);
      assert v[i..] == FirstSixteen(l)[i..];
    }
  }

  lemma InUseHolds(v: seq<Vma>, l: seq<Vma>, j: int)
    requires |v| == MAX_USER_PAGES && 0 <= j < MAX_USER_PAGES && v[j].pa != 0
    requires HoldsPages(Fill(v, l), FirstSixteen(l))
    ensures j < |l| && v[j] == l[j]
  {
    FillKeeps(v, l, j);
    hide Fill;
  }

  /** An empty element behind one in use gets the entry of that one. */
  lemma EntryMisplaced(v: seq<Vma>, l: seq<Vma>, i: int, j: int)
    requires |v| == MAX_USER_PAGES && IsEntryList(l) && i == FirstInUse(v) && i < |l|
    requires i < j < MAX_USER_PAGES && v[j].pa == 0
    ensures !HoldsPages(Fill(v, l), FirstSixteen(l))
  {
    hide Fill, FirstEmpty;
    FillFront(v, l, i);
    FillOneMore(v, l, i);
    var e := NextEmpty(v, l, i, j);
    FillMore(v, l, i + 1, e);
    assert Fill(v, l)[e] == l[i];
  }

  lemma FillOneMore(v: seq<Vma>, l: seq<Vma>, i: nat)
    requires i < |l|
    ensures Fill(v, l[..i + 1]) == PutVma(Fill(v, l[..i]), l[i])
  {
    assert l[..i + 1][..i] == l[..i];
  }

  lemma NextEmpty(v: seq<Vma>, l: seq<Vma>, i: int, j: int) returns (e: int)
    requires |v| == MAX_USER_PAGES && IsEntryList(l) && i < |l| && 0 <= i < j < MAX_USER_PAGES
    requires v[i].pa != 0 && v[j].pa == 0
    ensures i < e < MAX_USER_PAGES && e == FirstEmpty(l[..i] + v[i..])
  {
    var u := l[..i] + v[i..];
    assert u[j] == v[j] && u[i] == v[i];
    assert forall t :: 0 <= t < i ==> u[t] == l[t];
    e := FirstEmpty(u);
  }

  // ---------------------------------------------------------------- pgtbl_page

  /** pgtbl_page holds the addresses `l`, and nothing behind them. */
  ghost predicate HoldsList(t: seq<int>, l: seq<int>)
    requires |t| == TABLE_WORDS
  {
    && |l| <= MAX_PGTBL_PAGES
    && forall i :: 0 <= i < MAX_PGTBL_PAGES ==> t[i] == if i < |l| then l[i] else 0
  }

  /** Recording one more table makes nothing right that was wrong, and nothing wrong that was right. */
  lemma OneTableIff(t: seq<int>, l: seq<int>, x: int)
    requires |t| == TABLE_WORDS && |l| + 1 < MAX_PGTBL_PAGES && x != 0 && x !in l && 0 !in l
    ensures HoldsList(t[FirstNull(t[..MAX_PGTBL_PAGES]) := x], l + [x]) <==> HoldsList(t, l)
  {
    var z := FirstNull(t[..MAX_PGTBL_PAGES]);
    var t' := t[z := x];
    assert forall i :: 0 <= i < MAX_PGTBL_PAGES ==> t[..MAX_PGTBL_PAGES][i] == t[i];
    assert forall i :: 0 <= i < |l| ==> (l + [x])[i] == l[i] && l[i] in l;
    assert (l + [x])[|l|] == x;
    if HoldsList(t', l + [x]) {
      PutAtEnd(t, l, x, z);
    }
    if HoldsList(t, l) {
      assert t[|l|] == 0 && z == |l|;
    }
  }

  lemma PutAtEnd(t: seq<int>, l: seq<int>, x: int, z: int)
    requires |t| == TABLE_WORDS && |l| + 1 < MAX_PGTBL_PAGES && x != 0 && x !in l && 0 <= z <= MAX_PGTBL_PAGES
    requires z < MAX_PGTBL_PAGES ==> t[z] == 0
    requires forall i :: 0 <= i < z ==> t[i] != 0
    requires HoldsList(t[z := x], l + [x])
    ensures HoldsList(t, l)
  {
    var t' := t[z := x];
    assert z != MAX_PGTBL_PAGES - 1 ==> t'[MAX_PGTBL_PAGES - 1] == t[MAX_PGTBL_PAGES - 1];
    if z == MAX_PGTBL_PAGES {
      assert false;
    }
    assert t'[z] == x;
    assert forall i :: 0 <= i < |l| ==> (l + [x])[i] == l[i] && l[i] in l;
    assert z == |l|;
    forall i | 0 <= i < MAX_PGTBL_PAGES
      ensures t[i] == if i < |l| then l[i] else 0
    {
      assert t'[i] == if i < |l| then l[i] else if i == |l| then x else 0;
    }
  }

  /** The three tables of the stack go to the first null pointer and the two places behind it. */
  lemma ThreeTablesIff(t: seq<int>, l: seq<int>)
    requires |t| == TABLE_WORDS && |l| == 3 && 0 !in l && l[0] != l[1] && l[0] != l[2]
    ensures var z := FirstNull(t[..MAX_PGTBL_PAGES]);
      HoldsList(t[z := l[0]][z + 1 := l[1]][z + 2 := l[2]], l)
      <==> t[0] == 0 && forall j :: 3 <= j < MAX_PGTBL_PAGES ==> t[j] == 0
  {
    var z := FirstNull(t[..MAX_PGTBL_PAGES]);
    var t' := t[z := l[0]][z + 1 := l[1]][z + 2 := l[2]];
    assert forall i :: 0 <= i < MAX_PGTBL_PAGES ==> t[..MAX_PGTBL_PAGES][i] == t[i];
    assert l[0] in l && l[1] in l && l[2] in l;
    assert t'[z] == l[0] && t'[z + 1] == l[1] && t'[z + 2] == l[2];
    assert forall i :: z + 3 <= i < MAX_PGTBL_PAGES ==> t'[i] == t[i];
    assert forall i :: 0 <= i < z ==> t'[i] == t[i];
    assert z == MAX_PGTBL_PAGES ==> t'[5] == t[5];
    if HoldsList(t', l) {
      if z == MAX_PGTBL_PAGES {
        assert false;
      }
      assert z == 0;
      assert forall j :: 3 <= j < MAX_PGTBL_PAGES ==> t'[j] == t[j];
    }
    if t[0] == 0 && forall j :: 3 <= j < MAX_PGTBL_PAGES ==> t[j] == 0 {
      assert z == 0;
      assert forall j :: 3 <= j < MAX_PGTBL_PAGES ==> t'[j] == t[j];
    }
  }

  // ---------------------------------------------------------------- copy_process

  /** What alloc_user_page records for the page at `addr`. */
  function EntryOf(g: Mapping, addr: int): Vma {
    var k, nodes := KeyOf(PageNo(addr), 4), MapPage(g, addr).space.nodes;
    Vma(addr, if k in nodes then PfnToPa(nodes[k]) else 0)
  }

  /** The stack and the first `n` pages of the image. */
  function ImageEntries(root: int, c: Counts, n: nat): (l: seq<Vma>)
    ensures |l| == n + 1
    ensures forall i :: 0 <= i < |l| ==> l[i].va == if i == 0 then USER_MAX - 4096 else (i - 1) * PAGE_SIZE
  {
    if n == 0 then [EntryOf(Mapping(NewSpace(root), c), USER_MAX - 4096)]
    else ImageEntries(root, c, n - 1) + [EntryOf(WithImage(root, c, n - 1), (n - 1) * PAGE_SIZE)]
  }

  lemma RecordImageSteps(r: Records, root: int, c: Counts, n: nat)
    requires |r.tables| == TABLE_WORDS
    ensures RecordImage(r, root, c, 0) == RecordPage(r, Mapping(NewSpace(root), c), USER_MAX - 4096)
    ensures n > 0 ==>
      RecordImage(r, root, c, n)
        == RecordPage(RecordImage(r, root, c, n - 1), WithImage(root, c, n - 1), (n - 1) * PAGE_SIZE)
    ensures WithImage(root, c, 0) == WithStack(root, c) == MapPage(Mapping(NewSpace(root), c), USER_MAX - 4096)
  {
    hide MapPage, MapPages, RecordPage, RecordPages;
    var g := Mapping(NewSpace(root), c);
    RangeStep(r, g, USER_MAX - 4096, 0);
    RangeStep(RecordPages(r, g, USER_MAX - 4096, 1), WithStack(root, c), 0, 0);
    if n > 0 {
      RangeStep(RecordPages(r, g, USER_MAX - 4096, 1), WithStack(root, c), 0, n - 1);
    }
  }

  /** A page that is not mapped gets an entry of its own. */
  lemma NewEntry(g: Mapping, addr: int)
    requires |g.count| == PAGING_PAGES && FreePages(g.count) >= 4
    requires KeyOf(PageNo(addr), 4) !in g.space.nodes
    ensures var k := KeyOf(PageNo(addr), 4);
      && k in MapPage(g, addr).space.nodes && EntryOf(g, addr).pa > 0
      && MapPage(g, addr).space.vma
         == if |g.space.vma| < MAX_USER_PAGES then g.space.vma + [EntryOf(g, addr)] else g.space.vma
  {
    GrowPathVma(g, PageNo(addr), 4);
    GrowPathGrows(g, PageNo(addr), 4);
    GrowPathExtends(g, PageNo(addr), 4);
  }

  lemma FillStep(v: seq<Vma>, l: seq<Vma>, e: Vma)
    ensures Fill(v, l + [e]) == PutVma(Fill(v, l), e)
    ensures FirstSixteen(l + [e]) == if |l| < MAX_USER_PAGES then FirstSixteen(l) + [e] else FirstSixteen(l)
  {
    assert (l + [e])[..|l|] == l;
  }

  ghost predicate HavePages(l: seq<Vma>) {
    forall i :: 0 <= i < |l| ==> l[i].pa > 0
  }

  lemma {:induction false} VmaIsFill(r: Records, root: int, c: Counts, n: nat)
    requires IsRecords(r) && FreePages(c) >= 4 + 4 * n && n <= 959
    ensures RecordImage(r, root, c, n).vma == Fill(r.vma, ImageEntries(root, c, n))
    ensures WithImage(root, c, n).space.vma == FirstSixteen(ImageEntries(root, c, n))
    ensures HavePages(ImageEntries(root, c, n))
  {
    hide FreePages, WithStack, WithImage, RecordImage, MapPage, PutVma, KeyOf, PageNo, Fill, FirstSixteen;
    RecordImageSteps(r, root, c, n);
    if n == 0 {
      FillOne(r, root, c);
    } else {
      var l, h := ImageEntries(root, c, n - 1), WithImage(root, c, n - 1);
      VmaIsFill(r, root, c, n - 1);
      NextImagePage(root, c, n);
      NewEntry(h, (n - 1) * PAGE_SIZE);
      FillStep(r.vma, l, EntryOf(h, (n - 1) * PAGE_SIZE));
      assert |h.space.vma| == |FirstSixteen(l)|;
    }
  }

  lemma FillOne(r: Records, root: int, c: Counts)
    requires IsRecords(r) && FreePages(c) >= 4
    ensures RecordImage(r, root, c, 0).vma == Fill(r.vma, ImageEntries(root, c, 0))
    ensures WithImage(root, c, 0).space.vma == FirstSixteen(ImageEntries(root, c, 0))
    ensures HavePages(ImageEntries(root, c, 0))
  {
    hide FreePages, WithStack, WithImage, RecordImage, MapPage, PutVma, KeyOf, PageNo;
    var g := Mapping(NewSpace(root), c);
    var e := EntryOf(g, USER_MAX - 4096);
    RecordImageSteps(r, root, c, 0);
    FirstKey(root);
    NewEntry(g, USER_MAX - 4096);
    FillStep(r.vma, [], e);
    assert [] + [e] == [e];
  }

  lemma FirstKey(root: int)
    ensures KeyOf(PageNo(USER_MAX - 4096), 4) !in NewSpace(root).nodes
  {
  }

  /** The addresses of the tables, in the order they were recorded. */
  ghost function Addresses(s: Space): (l: seq<int>)
    requires TablesRecorded(s)
    ensures |l| == |s.tables|
    ensures forall i :: 0 <= i < |l| ==> s.tables[i] in s.nodes && l[i] == PageVa(s.nodes[s.tables[i]])
  {
    TablePagesAre(s);
    seq(|s.tables|, i requires 0 <= i < |s.tables| => PageVa(s.nodes[s.tables[i]]))
  }

  lemma HoldsAddresses(t: seq<int>, s: Space)
    requires |t| == TABLE_WORDS && TablesRecorded(s)
    ensures HoldsTables(t, s) <==> HoldsList(t, Addresses(s))
  {
  }

  lemma AddressesDiffer(s: Space)
    requires TablesRecorded(s) && Injective(s.nodes)
    requires forall k :: k in s.nodes ==> IsPfn(s.nodes[k])
    ensures var l := Addresses(s); 0 !in l && forall i, j :: 0 <= i < j < |l| ==> l[i] != l[j]
  {
  }

  /** Beyond the stack an image adds one table at a time. */
  lemma ImageTableStep(t: seq<int>, h: Mapping, pn: int)
    requires |t| == TABLE_WORDS && |h.count| == PAGING_PAGES && FreePages(h.count) >= 4
    requires KeyOf(pn, 1) in h.space.nodes && KeyOf(pn, 2) in h.space.nodes
    ensures var k, p := KeyOf(pn, 3), HighestFree(h.count);
      PutTables(t, h, pn) == if k in h.space.nodes then t else t[FirstNull(t[..MAX_PGTBL_PAGES]) := PageVa(p)]
  {
    FreePagesPositive(h.count);
    GrowPathSteps(h, pn);
  }

  lemma NewTableNode(h: Mapping, pn: int)
    requires FreePages(h.count) >= 4 && KeyOf(pn, 1) in h.space.nodes && KeyOf(pn, 2) in h.space.nodes
    requires KeyOf(pn, 3) !in h.space.nodes
    ensures var k, s' := KeyOf(pn, 3), GrowPath(h, pn, 4).space; k in s'.nodes && s'.nodes[k] == HighestFree(h.count)
  {
    FreePagesPositive(h.count);
    GrowPathSteps(h, pn);
  }

  /** A new table is recorded with the page it gets. */
  lemma TableGetsRecord(r: (seq<int>, nat), g: Mapping, k: Key)
    requires k !in g.space.nodes && FreePages(g.count) > 0 && r.1 < |r.0|
    ensures var g' := Grow(g, k);
      k in g'.space.nodes && PutTable(r, g, k) == (r.0[r.1 := PageVa(g'.space.nodes[k])], r.1 + 1)
  {
    FreePagesPositive(g.count);
  }

  /** The three tables of the stack. */
  lemma StackTableStep(t: seq<int>, root: int, c: Counts)
    requires |t| == TABLE_WORDS && FreePages(c) >= 4
    ensures var z, s := FirstNull(t[..MAX_PGTBL_PAGES]), WithStack(root, c).space;
      && s.tables == [Key(1, 0), Key(2, 0), Key(3, 511)] && (forall k :: k in s.tables ==> k in s.nodes)
      && PutTables(t, Mapping(NewSpace(root), c), PageNo(USER_MAX - 4096))
         == t[z := PageVa(s.nodes[Key(1, 0)])][z + 1 := PageVa(s.nodes[Key(2, 0)])]
            [z + 2 := PageVa(s.nodes[Key(3, 511)])]
  {
    var g, pn := Mapping(NewSpace(root), c), PageNo(USER_MAX - 4096);
    assert pn == 0x3_ffff;
    assert KeyOf(pn, 1) == Key(1, 0) && KeyOf(pn, 2) == Key(2, 0) && KeyOf(pn, 3) == Key(3, 511);
    StackTables(root, c);
    StackNodes(root, c, GrowPath(g, pn, 3));
    var s := WithStack(root, c).space;
    assert Key(1, 0) in s.tables && Key(2, 0) in s.tables && Key(3, 511) in s.tables;
    hide KeyOf, PageNo, FreePages, WithStack, GrowPath;
    ThreeNewTables(t, g, pn);
  }

  lemma ThreeNewTables(t: seq<int>, g: Mapping, pn: int)
    requires |t| == TABLE_WORDS && FreePages(g.count) >= 4
    requires KeyOf(pn, 1) !in g.space.nodes && KeyOf(pn, 2) !in g.space.nodes && KeyOf(pn, 3) !in g.space.nodes
    ensures var z, nodes := FirstNull(t[..MAX_PGTBL_PAGES]), GrowPath(g, pn, 3).space.nodes;
      && KeyOf(pn, 1) in nodes && KeyOf(pn, 2) in nodes && KeyOf(pn, 3) in nodes
      && PutTables(t, g, pn) == t[z := PageVa(nodes[KeyOf(pn, 1)])][z + 1 := PageVa(nodes[KeyOf(pn, 2)])]
                                 [z + 2 := PageVa(nodes[KeyOf(pn, 3)])]
  {
    var z, k1, k2, k3 := FirstNull(t[..MAX_PGTBL_PAGES]), KeyOf(pn, 1), KeyOf(pn, 2), KeyOf(pn, 3);
    var g1, g2 := GrowPath(g, pn, 1), GrowPath(g, pn, 2);
    GrowPathSteps(g, pn);
    GrowEffect(g, k1);
    GrowEffect(g1, k2);
    var r1 := PutTable((t, z), g, k1);
    var r2 := PutTable(r1, g1, k2);
    TableGetsRecord((t, z), g, k1);
    TableGetsRecord(r1, g1, k2);
    TableGetsRecord(r2, g2, k3);
    NodeKept(g1, k2, k1);
    NodeKept(g2, k3, k1);
    NodeKept(g2, k3, k2);
    assert PutTables(t, g, pn) == PutTable(r2, g2, k3).0;
  }

  lemma NodeKept(g: Mapping, k: Key, j: Key)
    requires j in g.space.nodes
    ensures j in Grow(g, k).space.nodes && Grow(g, k).space.nodes[j] == g.space.nodes[j]
  {
  }

  lemma StackNodes(root: int, c: Counts, g3: Mapping)
    requires FreePages(c) >= 4 && g3 == GrowPath(Mapping(NewSpace(root), c), PageNo(USER_MAX - 4096), 3)
    ensures forall k :: k in g3.space.nodes ==>
      k in WithStack(root, c).space.nodes && WithStack(root, c).space.nodes[k] == g3.space.nodes[k]
  {
    var g := Mapping(NewSpace(root), c);
    RangeStep(Records([], seq(TABLE_WORDS, _ => 0)), g, USER_MAX - 4096, 0);
    hide KeyOf, PageNo, FreePages, MapPages;
    GrowPathSteps(g, PageNo(USER_MAX - 4096));
  }

  /** There are pages for an image of `n`. */
  ghost predicate Room(root: int, c: Counts, n: nat) {
    IsPfn(root) && c[root] == 0 && FreePages(c[root := 1]) >= 4 + 4 * n && n <= 959
  }

  /** The tree with `n` image pages. */
  ghost function Image(root: int, c: Counts, n: nat): Mapping
    requires Room(root, c, n)
  {
    WithImage(root, c[root := 1], n)
  }

  lemma ImageFacts(root: int, c: Counts, n: nat)
    requires Room(root, c, n)
    ensures var s := Image(root, c, n).space;
      && TablesRecorded(s) && |s.tables| <= 5 && Key(1, 0) in s.nodes && Key(2, 0) in s.nodes
      && 0 !in Addresses(s) && forall i, j :: 0 <= i < j < |s.tables| ==> Addresses(s)[i] != Addresses(s)[j]
  {
    ImageRecords(root, c[root := 1], n);
    ImageTables(root, c[root := 1], n);
    ImageClaims(root, c, n);
    hide WithImage, FreePages, TablesRecorded, PagesListed, PagesRecorded;
    AddressesDiffer(Image(root, c, n).space);
  }

  lemma NextImage(root: int, c: Counts, n: nat)
    requires Room(root, c, n) && n > 0
    ensures Room(root, c, n - 1)
    ensures var h, addr := Image(root, c, n - 1), (n - 1) * PAGE_SIZE;
      && Image(root, c, n) == MapPage(h, addr) && |h.count| == PAGING_PAGES && FreePages(h.count) >= 4
      && KeyOf(PageNo(addr), 1) == Key(1, 0) && KeyOf(PageNo(addr), 2) == Key(2, 0)
      && KeyOf(PageNo(addr), 3) == Key(3, (n - 1) / 512)
  {
    NextImagePage(root, c[root := 1], n);
    PageNumber(n - 1);
  }

  /** What page `n` of the image adds to the tables. */
  lemma NextAddress(root: int, c: Counts, n: nat)
    requires Room(root, c, n) && n > 0
    ensures Room(root, c, n - 1)
    ensures var h, h', k := Image(root, c, n - 1), Image(root, c, n), Key(3, (n - 1) / 512);
      && TablesRecorded(h.space) && TablesRecorded(h'.space)
      && Addresses(h'.space) == Addresses(h.space) + if k in h.space.nodes then [] else [PageVa(HighestFree(h.count))]
  {
    NextImage(root, c, n);
    ImageFacts(root, c, n - 1);
    ImageFacts(root, c, n);
    hide Room, FreePages, Image, TablesRecorded, KeyOf, PageNo;
    TableAdded(Image(root, c, n - 1), (n - 1) * PAGE_SIZE);
  }

  lemma TableAdded(h: Mapping, addr: int)
    requires |h.count| == PAGING_PAGES && FreePages(h.count) >= 4
    requires TablesRecorded(h.space) && TablesRecorded(MapPage(h, addr).space)
    requires KeyOf(PageNo(addr), 1) in h.space.nodes && KeyOf(PageNo(addr), 2) in h.space.nodes
    ensures var k := KeyOf(PageNo(addr), 3);
      Addresses(MapPage(h, addr).space)
      == Addresses(h.space) + if k in h.space.nodes then [] else [PageVa(HighestFree(h.count))]
  {
    hide FreePages, MapPage, TablesRecorded, KeyOf, PageNo, GrowPath, Record, HighestFree;
    var pn := PageNo(addr);
    var s, s' := h.space, MapPage(h, addr).space;
    MapPageNodes(h, addr);
    MapPageEffect(h, addr, KeyOf(pn, 1), KeyOf(pn, 2), KeyOf(pn, 3), KeyOf(pn, 4));
    if KeyOf(pn, 3) !in s.nodes {
      NewTableNode(h, pn);
    }
    MapPageExtends(h, addr);
    assert s'.tables == s.tables + if KeyOf(pn, 3) in s.nodes then [] else [KeyOf(pn, 3)];
  }

  lemma MapPageNodes(h: Mapping, addr: int)
    ensures MapPage(h, addr).space.nodes == GrowPath(h, PageNo(addr), 4).space.nodes
  {
  }

  lemma NextTable(r: Records, root: int, c: Counts, n: nat)
    requires |r.tables| == TABLE_WORDS && Room(root, c, n) && n > 0
    ensures Room(root, c, n - 1)
    ensures HoldsTables(RecordPage(r, Image(root, c, n - 1), (n - 1) * PAGE_SIZE).tables, Image(root, c, n).space)
      <==> HoldsTables(r.tables, Image(root, c, n - 1).space)
  {
    hide KeyOf, PageNo, FreePages, MapPage, HighestFree;
    NextImage(root, c, n);
    ImageFacts(root, c, n - 1);
    ImageFacts(root, c, n);
    NextAddress(root, c, n);
    hide Room, Image, TablesRecorded, PutTables, HoldsTables, HoldsList, RecordPage;
    var h, h', addr := Image(root, c, n - 1), Image(root, c, n), (n - 1) * PAGE_SIZE;
    RecordedTables(r, h, addr);
    ImageTableStep(r.tables, h, PageNo(addr));
    HoldsAddresses(r.tables, h.space);
    HoldsAddresses(RecordPage(r, h, addr).tables, h'.space);
    if Key(3, (n - 1) / 512) !in h.space.nodes {
      NextIff(r.tables, Addresses(h.space), Addresses(h'.space), PageVa(HighestFree(h.count)));
    } else {
      assert Addresses(h'.space) == Addresses(h.space);
    }
  }

  lemma NextIff(t: seq<int>, l: seq<int>, l': seq<int>, x: int)
    requires |t| == TABLE_WORDS && |l| <= 5 && l' == l + [x] && 0 !in l'
    requires forall i, j :: 0 <= i < j < |l'| ==> l'[i] != l'[j]
    ensures HoldsList(t[FirstNull(t[..MAX_PGTBL_PAGES]) := x], l') <==> HoldsList(t, l)
  {
    assert l'[|l|] == x && x in l';
    assert forall i :: 0 <= i < |l| ==> l'[i] == l[i] && l[i] in l';
    OneTableIff(t, l, x);
  }

  lemma RecordedTables(r: Records, g: Mapping, addr: int)
    requires |r.tables| == TABLE_WORDS
    ensures RecordPage(r, g, addr).tables == PutTables(r.tables, g, PageNo(addr))
  {
  }

  lemma {:induction false} TablesIff(r: Records, root: int, c: Counts, n: nat)
    requires IsRecords(r) && Room(root, c, n)
    ensures HoldsTables(RecordImage(r, root, c[root := 1], n).tables, Image(root, c, n).space)
      <==> r.tables[0] == 0 && forall j :: 3 <= j < MAX_PGTBL_PAGES ==> r.tables[j] == 0
  {
    hide RecordImage, RecordPage, MapPage, HoldsTables, KeyOf, PageNo, FreePages, WithImage, WithStack;
    RecordImageSteps(r, root, c[root := 1], n);
    if n == 0 {
      StackTablesIff(r, root, c);
    } else {
      NextImage(root, c, n);
      TablesIff(r, root, c, n - 1);
      NextTable(RecordImage(r, root, c[root := 1], n - 1), root, c, n);
    }
  }

  lemma StackTablesIff(r: Records, root: int, c: Counts)
    requires IsRecords(r) && Room(root, c, 0)
    ensures HoldsTables(RecordPage(r, Mapping(NewSpace(root), c[root := 1]), USER_MAX - 4096).tables,
                        Image(root, c, 0).space)
      <==> r.tables[0] == 0 && forall j :: 3 <= j < MAX_PGTBL_PAGES ==> r.tables[j] == 0
  {
    var c1: Counts := c[root := 1];
    var g, s := Mapping(NewSpace(root), c1), WithStack(root, c1).space;
    ImageFacts(root, c, 0);
    RecordImageSteps(r, root, c1, 0);
    StackTableStep(r.tables, root, c1);
    RecordedTables(r, g, USER_MAX - 4096);
    hide Room, RecordImage, RecordPage, MapPage, HoldsTables, HoldsList, KeyOf, PageNo, FreePages, WithImage,
         WithStack, PutTables;
    HoldsAddresses(PutTables(r.tables, g, PageNo(USER_MAX - 4096)), s);
    var l := Addresses(s);
    assert forall i :: 0 <= i < 3 ==> l[i] == PageVa(s.nodes[s.tables[i]]);
    ThreeTablesIff(r.tables, l);
  }

  /** The records of a new process are right if, and only if, the memory of its mm_struct was. */
  lemma RecordsRightIff(r: Records, root: int, c: Counts, n: nat)
    requires IsRecords(r) && Room(root, c, n)
    ensures Holds(RecordImage(r, root, c[root := 1], n), Image(root, c, n).space)
      <==> SlotFits(r, Image(root, c, n).space)
  {
    VmaIsFill(r, root, c[root := 1], n);
    TablesIff(r, root, c, n);
    FillIff(r.vma, ImageEntries(root, c[root := 1], n));
    hide FreePages, RecordImage, WithImage, HoldsPages, HoldsTables, Fill, ImageEntries, FitsFrom;
  }

  ghost predicate NothingListed(r: Records)
    requires IsRecords(r)
  {
    && r.tables[0] == 0 && (forall j :: 3 <= j < MAX_PGTBL_PAGES ==> r.tables[j] == 0)
    && (forall j :: 0 <= j < MAX_USER_PAGES ==> r.vma[j].pa == 0)
  }

  /** With fewer than sixteen pages to record that is: no element in use but the second and third table. */
  lemma SmallImageFits(r: Records, s: Space)
    requires IsRecords(r) && |s.vma| < MAX_USER_PAGES
    ensures SlotFits(r, s) <==> NothingListed(r)
  {
    if forall j :: 0 <= j < MAX_USER_PAGES ==> r.vma[j].pa == 0 {
      assert FitsFrom(r.vma, s.vma, MAX_USER_PAGES);
    }
  }

  // ---------------------------------------------------------------- the arrays after copy_process

  /** What copy_process makes of the arrays, from what the slot held. */
  ghost function CreatedRecords(h: Heap, size: nat, r: Records): (r': Records)
    requires CanCreate(h, size) && IsRecords(r)
    ensures IsRecords(r')
  {
    StackTaken(h, size);
    var h2 := Malloc(HeapWithStack(h), MM_STRUCT_SIZE).0;
    var root := HighestFree(h2.count);
    FreePagesPositive(h2.count);
    RecordImage(r, root, h2.count[root := 1], PagesFor(size))
  }

  lemma CreateRoom(h: Heap, size: nat) returns (root: int, c: Counts)
    requires CanCreate(h, size)
    ensures Room(root, c, PagesFor(size)) && Create(h, size).space == Image(root, c, PagesFor(size)).space
    ensures forall r: Records :: IsRecords(r) ==>
      CreatedRecords(h, size, r) == RecordImage(r, root, c[root := 1], PagesFor(size))
  {
    StackTaken(h, size);
    c := Malloc(HeapWithStack(h), MM_STRUCT_SIZE).0.count;
    AtMostAll(c);
    root := HighestFree(c);
    FreePagesPositive(c);
    TakePage(c, root);
  }

  /** The records of a new process are right if, and only if, what the slot held fits. */
  lemma CreatedRightIff(h: Heap, size: nat, r: Records)
    requires CanCreate(h, size) && IsRecords(r)
    ensures Holds(CreatedRecords(h, size, r), Create(h, size).space) <==> SlotFits(r, Create(h, size).space)
  {
    hide CanCreate, Create, CreatedRecords, Room, Image, RecordImage, Holds, SlotFits;
    var root, c := CreateRoom(h, size);
    RecordsRightIff(r, root, c, PagesFor(size));
  }

  /** Each entry fills an element, from the front on. */
  lemma {:induction false} FillFills(v: seq<Vma>, l: seq<Vma>)
    requires HavePages(l)
    ensures FirstEmpty(Fill(v, l)) >= |l| || FirstEmpty(Fill(v, l)) == |v|
  {
    if l != [] {
      var n := |l| - 1;
      FillFills(v, l[..n]);
      var u := Fill(v, l[..n]);
      var i := FirstEmpty(u);
      if i < |u| {
        var w := u[i := l[n]];
        assert w[i] == l[n] && forall j :: 0 <= j < i ==> w[j] == u[j];
      }
    }
  }

  lemma DirtyInUse(v: seq<Vma>, l: seq<Vma>, i: int)
    requires HavePages(l) && 0 <= i < |v| && i <= |l| && v[i].pa != 0
    ensures Fill(v, l)[i] == v[i] && i < FirstEmpty(Fill(v, l))
  {
    FillFills(v, l);
    FillKeeps(v, l, i);
    hide Fill;
  }

  lemma NamedInUse(r: Records, i: int)
    requires IsRecords(r) && 0 <= i < FirstEmpty(r.vma)
    ensures PaToPfn(r.vma[i].pa) in NamedPages(r)
  {
    hide PagesAt;
    var pages := InUsePages(r.vma);
    assert pages[i] == PaToPfn(r.vma[i].pa);
    assert NamedPages(r)[i] == pages[i];
  }

  /** An element in use among the first of a slot is never overwritten, and delete_process reaches it. */
  lemma DirtyNamed(h: Heap, size: nat, r: Records, i: int)
    requires CanCreate(h, size) && IsRecords(r) && 0 <= i < MAX_USER_PAGES && i <= PagesFor(size) + 1
    requires r.vma[i].pa != 0
    ensures PaToPfn(r.vma[i].pa) in NamedPages(CreatedRecords(h, size, r))
  {
    hide CanCreate, CreatedRecords, NamedPages, RecordImage, Image, ImageEntries, FreePages, PagesFor, Fill;
    var root, c := CreateRoom(h, size);
    var n := PagesFor(size);
    RoomFor(root, c, n);
    VmaIsFill(r, root, c[root := 1], n);
    DirtyInUse(r.vma, ImageEntries(root, c[root := 1], n), i);
    NamedInUse(RecordImage(r, root, c[root := 1], n), i);
  }

  lemma RoomFor(root: int, c: Counts, n: nat)
    requires Room(root, c, n)
    ensures 0 <= root < |c| && FreePages(c[root := 1]) >= 4 + 4 * n && n <= 959
  {
  }
}
