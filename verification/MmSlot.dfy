/** The words of RAM that an mm_struct takes: its slot in the heap, and the fields as the code sees them. */
module MmSlot {
  import opened PhysMem
  import opened PageTable
  import opened Process
  import opened RecordArrays

  /** pgd, the elements of vma, pgtbl_page, and the three words behind it. */
  const MM_WORDS: int := 44

  /** Whether a slot of that many words starts at the address. */
  predicate HasWords(slot: int) {
    InRam(slot) && InRam(slot + 8 * (MM_WORDS - 1))
  }

  function MmWord(m: Memory, slot: int, i: int): Word
    requires HasWords(slot) && 0 <= i < MM_WORDS
  {
    m[WordIndex(slot) + i]
  }

  /** The record arrays that the words of the slot make up. */
  function RecordsAt(m: Memory, slot: int): (r: Records)
    requires HasWords(slot)
    ensures |r.vma| == MAX_USER_PAGES && |r.tables| == TABLE_WORDS
  {
    Records(seq(MAX_USER_PAGES, i requires 0 <= i < MAX_USER_PAGES =>
              Vma(MmWord(m, slot, 1 + 2 * i), MmWord(m, slot, 2 + 2 * i))),
            seq(TABLE_WORDS, j requires 0 <= j < TABLE_WORDS => MmWord(m, slot, 33 + j)))
  }

  /** The slot holds the mm_struct. */
  ghost predicate SlotHolds(m: Memory, slot: int, mm: MmStruct)
    requires mm.Shape()
    reads mm, mm.vma, mm.pgtblPage
  {
    HasWords(slot) && MmWord(m, slot, 0) == mm.pgd && RecordsAt(m, slot) == mm.Raw()
  }

  /** Word `i` of an mm_struct with these fields. */
  function FieldWord(pgd: int, r: Records, i: int): int
    requires |r.vma| == MAX_USER_PAGES && |r.tables| == TABLE_WORDS && 0 <= i < MM_WORDS
  {
    if i == 0 then pgd
    else if i > 32 then r.tables[i - 33]
    else if i % 2 == 1 then r.vma[(i - 1) / 2].va else r.vma[(i - 1) / 2].pa
  }

  ghost predicate IsWord(w: int) { 0 <= w < 0x1_0000_0000_0000_0000 }

  ghost predicate InWords(r: Records) {
    && (forall i :: 0 <= i < |r.vma| ==> IsWord(r.vma[i].va) && IsWord(r.vma[i].pa))
    && (forall i :: 0 <= i < |r.tables| ==> IsWord(r.tables[i]))
  }

  lemma WordsAre(m: Memory, slot: int, pgd: int, r: Records)
    requires HasWords(slot) && |r.vma| == MAX_USER_PAGES && |r.tables| == TABLE_WORDS
    requires forall i :: 0 <= i < MM_WORDS ==> MmWord(m, slot, i) == FieldWord(pgd, r, i)
    ensures MmWord(m, slot, 0) == pgd && RecordsAt(m, slot) == r
  {
    var q := RecordsAt(m, slot);
    forall i | 0 <= i < MAX_USER_PAGES
      ensures q.vma[i] == r.vma[i]
    {
      assert MmWord(m, slot, 1 + 2 * i) == FieldWord(pgd, r, 1 + 2 * i);
      assert MmWord(m, slot, 2 + 2 * i) == FieldWord(pgd, r, 2 + 2 * i);
    }
    forall j | 0 <= j < TABLE_WORDS
      ensures q.tables[j] == r.tables[j]
    {
      assert MmWord(m, slot, 33 + j) == FieldWord(pgd, r, 33 + j);
    }
    assert q.vma == r.vma && q.tables == r.tables;
  }

  lemma SlotAddress(slot: int, i: int)
    requires HasWords(slot) && 0 <= i < MM_WORDS
    ensures InRam(slot + 8 * i) && WordIndex(slot + 8 * i) == WordIndex(slot) + i
  {
  }

  /** The mm_struct that a pointer to the slot gives: its arrays are the words there. */
  method ViewSlot(ram: Ram, slot: int) returns (mm: MmStruct)
    requires ram.Valid() && HasWords(slot)
    ensures fresh(mm) && fresh(mm.vma) && fresh(mm.pgtblPage) && mm.vma as object != mm.pgtblPage
    ensures mm.Shape() && mm.Raw() == RecordsAt(ram.Mem(), slot)
  {
    var vma := new Vma[MAX_USER_PAGES](_ => Vma(0, 0));
    var tables := new int[TABLE_WORDS](_ => 0);
    ghost var r := RecordsAt(ram.Mem(), slot);
    hide HasWords, InRam, WordIndex, RecordsAt;
    var i := 0;
    while i < MAX_USER_PAGES
      invariant 0 <= i <= MAX_USER_PAGES && forall k :: 0 <= k < i ==> vma[k] == r.vma[k]
      modifies vma
    {
      SlotAddress(slot, 1 + 2 * i);
      SlotAddress(slot, 2 + 2 * i);
      vma[i] := Vma(ram.Load(slot + 8 * (1 + 2 * i)), ram.Load(slot + 8 * (2 + 2 * i)));
      EntryAt(ram.Mem(), slot, i);
      i := i + 1;
    }
    i := 0;
    while i < TABLE_WORDS
      invariant 0 <= i <= TABLE_WORDS && forall k :: 0 <= k < i ==> tables[k] == r.tables[k]
      modifies tables
    {
      SlotAddress(slot, 33 + i);
      tables[i] := ram.Load(slot + 8 * (33 + i));
      TableAt(ram.Mem(), slot, i);
      i := i + 1;
    }
    assert vma[..] == r.vma && tables[..] == r.tables;
    mm := new MmStruct(vma, tables);
  }

  lemma EntryAt(m: Memory, slot: int, i: int)
    requires HasWords(slot) && 0 <= i < MAX_USER_PAGES
    ensures RecordsAt(m, slot).vma[i] == Vma(MmWord(m, slot, 1 + 2 * i), MmWord(m, slot, 2 + 2 * i))
  {
  }

  lemma TableAt(m: Memory, slot: int, i: int)
    requires HasWords(slot) && 0 <= i < TABLE_WORDS
    ensures RecordsAt(m, slot).tables[i] == MmWord(m, slot, 33 + i)
  {
  }

  /** Of memory only the words of the slot differ. */
  ghost predicate OnlySlot(m: Memory, m': Memory, slot: int) {
    forall w :: 0 <= w < PAGING_PAGES * WORDS && !(WordIndex(slot) <= w < WordIndex(slot) + MM_WORDS) ==> m'[w] == m[w]
  }

  /** What the code stores in the fields is in the slot. */
  method StoreFields(ram: Ram, slot: int, mm: MmStruct)
    requires ram.Valid() && HasWords(slot) && mm.Shape() && IsWord(mm.pgd) && InWords(mm.Raw())
    requires {ram.mem as object} !! {mm.vma as object, mm.pgtblPage, mm}
    modifies ram.mem
    ensures SlotHolds(ram.Mem(), slot, mm) && OnlySlot(old(ram.Mem()), ram.Mem(), slot)
  {
    ghost var r, m := mm.Raw(), ram.Mem();
    var i := 0;
    while i < MM_WORDS
      invariant 0 <= i <= MM_WORDS && mm.Raw() == r
      invariant forall k :: 0 <= k < i ==> MmWord(ram.Mem(), slot, k) == FieldWord(mm.pgd, r, k)
      invariant OnlySlot(m, ram.Mem(), slot)
    {
      var w := if i == 0 then mm.pgd
               else if i > 32 then mm.pgtblPage[i - 33]
               else if i % 2 == 1 then mm.vma[(i - 1) / 2].va else mm.vma[(i - 1) / 2].pa;
      SlotAddress(slot, i);
      ram.Store(slot + 8 * i, w);
      i := i + 1;
    }
    WordsAre(ram.Mem(), slot, mm.pgd, r);
  }

  // ---------------------------------------------------------------- the records fit in words

  lemma {:induction false} RecordPagesInWords(r: Records, g: Mapping, start: int, n: nat)
    requires |r.tables| == TABLE_WORDS && InWords(r) && |g.count| == PAGING_PAGES
    requires 0 <= start && start + n * PAGE_SIZE <= 0x1_0000_0000_0000
    requires forall k :: k in g.space.nodes ==> IsPfn(g.space.nodes[k])
    ensures InWords(RecordPages(r, g, start, n))
  {
    hide InWords, MapPages, RecordPages, RecordPage, IsPfn;
    RangeStep(r, g, start, 0);
    if n > 0 {
      RangeStep(r, g, start, n - 1);
      RecordPagesInWords(r, g, start, n - 1);
      MapPagesExtends(g, start, n - 1);
      RecordPageInWords(RecordPages(r, g, start, n - 1), MapPages(g, start, n - 1), start + (n - 1) * PAGE_SIZE);
    }
  }

  lemma RecordPageInWords(r: Records, g: Mapping, addr: int)
    requires |r.tables| == TABLE_WORDS && InWords(r) && |g.count| == PAGING_PAGES && 0 <= addr < 0x1_0000_0000_0000
    requires forall k :: k in g.space.nodes ==> IsPfn(g.space.nodes[k])
    ensures InWords(RecordPage(r, g, addr))
  {
    var pn, k := PageNo(addr), KeyOf(PageNo(addr), 4);
    GrowPathExtends(g, pn, 1);
    GrowPathExtends(g, pn, 2);
    MapPageExtends(g, addr);
    hide PageNo, KeyOf, MapPage, GrowPath, HighestFree, PutTable, PutVma;
    var r1 := PutTable((r.tables, FirstNull(r.tables[..MAX_PGTBL_PAGES])), g, KeyOf(pn, 1));
    PutTableInWords((r.tables, FirstNull(r.tables[..MAX_PGTBL_PAGES])), g, KeyOf(pn, 1));
    var r2 := PutTable(r1, GrowPath(g, pn, 1), KeyOf(pn, 2));
    PutTableInWords(r1, GrowPath(g, pn, 1), KeyOf(pn, 2));
    PutTableInWords(r2, GrowPath(g, pn, 2), KeyOf(pn, 3));
    var nodes := MapPage(g, addr).space.nodes;
    if k in nodes {
      assert IsPfn(nodes[k]);
      PutVmaInWords(r.vma, Vma(addr, PfnToPa(nodes[k])));
    }
  }

  lemma PutTableInWords(r: (seq<int>, nat), g: Mapping, k: Key)
    requires |g.count| == PAGING_PAGES && forall i :: 0 <= i < |r.0| ==> IsWord(r.0[i])
    ensures forall i :: 0 <= i < |r.0| ==> IsWord(PutTable(r, g, k).0[i])
  {
  }

  lemma PutVmaInWords(v: seq<Vma>, e: Vma)
    requires IsWord(e.va) && IsWord(e.pa) && forall i :: 0 <= i < |v| ==> IsWord(v[i].va) && IsWord(v[i].pa)
    ensures forall i :: 0 <= i < |v| ==> IsWord(PutVma(v, e)[i].va) && IsWord(PutVma(v, e)[i].pa)
  {
  }

  lemma RecordImageInWords(r: Records, root: int, c: Counts, n: nat)
    requires |r.tables| == TABLE_WORDS && InWords(r) && IsPfn(root) && n <= 959
    ensures InWords(RecordImage(r, root, c, n))
  {
    var g := Mapping(NewSpace(root), c);
    MapPagesExtends(g, USER_MAX - 4096, 1);
    hide InWords, MapPages, RecordPages;
    RecordPagesInWords(r, g, USER_MAX - 4096, 1);
    RecordPagesInWords(RecordPages(r, g, USER_MAX - 4096, 1), WithStack(root, c), 0, n);
  }
}
