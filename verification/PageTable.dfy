/** The four-level user page tables of mm/mm.c, for the 4 KB granule of VMSAv8-64
    (Arm ARM DDI 0487, section D5.2). */
module PageTable {
  import opened PhysMem

  const MM_TYPE_PAGE_TABLE: int := 0x3
  const MMU_PTE_FLAGS: int := 0x447
  const MAX_USER_PAGES: int := 16
  const MAX_PGTBL_PAGES: int := 8
  const TABLE_WORDS: int := 11  // pgtbl_page and the three words behind it that a full array can run into
  const VA_PAGES: int := 0x10_0000_0000  // 2^36 pages in a 48-bit address space

  /** A node of the tree: the table (or, at level 4, the page) that serves the pages whose number,
      cut to its first `level` nine-bit fields, is `prefix`. */
  datatype Key = Key(level: nat, prefix: int)

  datatype Vma = Vma(va: int, pa: int)

  /** The page number translated for an address, and the index used at each level. */
  function PageNo(addr: int): int { addr / 0x1000 % 0x10_0000_0000 }
  function KeyOf(pn: int, level: nat): (k: Key)
    requires level <= 4
    ensures k.level == level
  {
    Key(level, match level
      case 0 => 0
      case 1 => pn / 0x800_0000
      case 2 => pn / 0x4_0000
      case 3 => pn / 0x200
      case 4 => pn)
  }
  function PgdIndex(addr: int): (i: int)
    ensures 0 <= i < 512
  {
    addr / 0x80_0000_0000 % 512
  }
  function PudIndex(addr: int): (i: int)
    ensures 0 <= i < 512
  {
    addr / 0x4000_0000 % 512
  }
  function PmdIndex(addr: int): (i: int)
    ensures 0 <= i < 512
  {
    addr / 0x20_0000 % 512
  }
  function PteIndex(addr: int): (i: int)
    ensures 0 <= i < 512
  {
    addr / 0x1000 % 512
  }

  /** ENTRY_GET_ADDR clears the low twelve bits. */
  function EntryGetAddr(e: int): int { e - e % 4096 }

  // ---------------------------------------------------------------- hardware view

  function ReadPa(m: Memory, pa: int): (r: int) {
    if LOW_MEM <= pa < LOW_MEM + PAGING_PAGES * PAGE_SIZE then m[(pa - LOW_MEM) / 8] else 0
  }

  /** Output address of a descriptor: bits 47 to 12. */
  function OutputAddress(desc: int): int { desc / 0x1000 % 0x10_0000_0000 * 0x1000 }
  predicate IsTableOrPage(desc: int) { desc % 4 == 3 }

  /** A leaf usable from EL0: access flag (bit 10) and AP[1] (bit 6) set, AP[2] (bit 7) clear. */
  predicate IsUserPage(desc: int) {
    IsTableOrPage(desc) && desc / 0x400 % 2 == 1 && desc / 0x40 % 4 == 1
  }

  datatype Translation = Fault | Phys(pa: int)

  /** One lookup: the output address of entry `i` of the table at `table`. */
  function LookUp(m: Memory, table: Translation, i: int, leaf: bool): Translation {
    if table.Fault? then Fault else
    var d := ReadPa(m, table.pa + i * 8);
    if IsTableOrPage(d) && (leaf ==> IsUserPage(d)) then Phys(OutputAddress(d)) else Fault
  }

  /** What the MMU does with a TTBR0 address: four lookups, starting at `ttbr`. */
  function Translate(m: Memory, ttbr: int, va: int): Translation {
    if !(0 <= va < 0x1_0000_0000_0000) then Fault else
    var pud := LookUp(m, Phys(ttbr), PgdIndex(va), false);
    var pmd := LookUp(m, pud, PudIndex(va), false);
    var pte := LookUp(m, pmd, PmdIndex(va), false);
    var page := LookUp(m, pte, PteIndex(va), true);
    if page.Fault? then Fault else Phys(page.pa + va % PAGE_SIZE)
  }

  // ---------------------------------------------------------------- the tree

  /** The entry stored for node `k`: zero when the node is absent. */
  function EntryFor(nodes: map<Key, int>, k: Key): int {
    if k !in nodes then 0
    else PfnToPa(nodes[k]) + if k.level == 4 then MMU_PTE_FLAGS else MM_TYPE_PAGE_TABLE
  }

  function Parent(k: Key): Key
    requires k.level > 0
  {
    Key(k.level - 1, k.prefix / 512)
  }
  function Child(k: Key, i: int): Key { Key(k.level + 1, k.prefix * 512 + i) }

  ghost predicate Table(m: Memory, nodes: map<Key, int>, k: Key)
    requires k in nodes && IsPfn(nodes[k])
  {
    forall i {:trigger Entry(m, nodes[k], i)} :: 0 <= i < WORDS ==>
      Entry(m, nodes[k], i) == EntryFor(nodes, Child(k, i))
  }

  /** `nodes` is exactly the tree found in memory: parents exist, no page is used twice, and every
      table holds the entries of its children and nothing else. */
  ghost predicate Tree(m: Memory, nodes: map<Key, int>) {
    && Key(0, 0) in nodes
    && (forall k :: k in nodes ==> IsPfn(nodes[k]) && k.level <= 4)
    && (forall k, j :: k in nodes && j in nodes && nodes[k] == nodes[j] ==> k == j)
    && (forall k {:trigger Parent(k)} :: k in nodes && k.level > 0 ==> Parent(k) in nodes)
    && (forall k {:trigger Table(m, nodes, k)} :: k in nodes && k.level < 4 ==> Table(m, nodes, k))
  }

  /** Where a node lives, as the MMU would report it. */
  function NodeAddress(nodes: map<Key, int>, k: Key): Translation {
    if k in nodes then Phys(PfnToPa(nodes[k])) else Fault
  }

  /** The tree decides every translation. */
  lemma TreeTranslates(m: Memory, nodes: map<Key, int>, va: int)
    requires Tree(m, nodes) && 0 <= va < 0x1_0000_0000_0000
    ensures Translate(m, PfnToPa(nodes[Key(0, 0)]), va) == Target(nodes, va)
  {
    var pn := PageNo(va);
    IndexFields(va);
    LookUpInTree(m, nodes, KeyOf(pn, 0), PgdIndex(va));
    LookUpInTree(m, nodes, KeyOf(pn, 1), PudIndex(va));
    LookUpInTree(m, nodes, KeyOf(pn, 2), PmdIndex(va));
    LookUpInTree(m, nodes, KeyOf(pn, 3), PteIndex(va));
  }

  /** The abstract view: a partial map from addresses to physical addresses. */
  function Target(nodes: map<Key, int>, va: int): Translation {
    var k := KeyOf(PageNo(va), 4);
    if k in nodes then Phys(PfnToPa(nodes[k]) + va % PAGE_SIZE) else Fault
  }

  /** One lookup goes from a node to its child. */
  lemma LookUpInTree(m: Memory, nodes: map<Key, int>, k: Key, i: int)
    requires Tree(m, nodes) && k.level < 4 && 0 <= i < 512
    ensures LookUp(m, NodeAddress(nodes, k), i, k.level == 3) == NodeAddress(nodes, Child(k, i))
  {
    hide LookUp;
    assert Parent(Child(k, i)) == k;
    if k in nodes {
      assert Table(m, nodes, k);
      LookUpInTable(m, nodes, k, i);
    } else {
      LookUpFaults(m, i, k.level == 3);
    }
  }

  lemma LookUpFaults(m: Memory, i: int, leaf: bool)
    ensures LookUp(m, Fault, i, leaf) == Fault
  {
  }

  lemma LookUpInTable(m: Memory, nodes: map<Key, int>, k: Key, i: int)
    requires k in nodes && IsPfn(nodes[k]) && Table(m, nodes, k) && k.level < 4 && 0 <= i < 512
    requires Child(k, i) in nodes ==> IsPfn(nodes[Child(k, i)])
    ensures LookUp(m, NodeAddress(nodes, k), i, k.level == 3) == NodeAddress(nodes, Child(k, i))
  {
    hide OutputAddress, IsTableOrPage, IsUserPage;
    var c := Child(k, i);
    EntryPa(nodes[k], i);
    assert Entry(m, nodes[k], i) == EntryFor(nodes, c);
    if c in nodes {
      TableDescriptor(nodes[c]);
      UserDescriptor(nodes[c]);
    } else {
      assert !IsTableOrPage(0) by { ZeroIsNeither(); }
    }
  }

  lemma ZeroIsNeither()
    ensures !IsTableOrPage(0)
  {
  }

  lemma EntryPa(p: int, i: int)
    requires IsPfn(p) && 0 <= i < 512
    ensures var pa := PfnToPa(p) + i * 8;
      LOW_MEM <= pa < LOW_MEM + PAGING_PAGES * PAGE_SIZE && (pa - LOW_MEM) / 8 == p * WORDS + i
  {
  }

  lemma TableDescriptor(p: int)
    requires IsPfn(p)
    ensures var d := PfnToPa(p) + MM_TYPE_PAGE_TABLE;
      IsTableOrPage(d) && OutputAddress(d) == EntryGetAddr(d) == PfnToPa(p)
  {
    SplitDescriptor(p + 0x4_0180, MM_TYPE_PAGE_TABLE);
  }

  lemma UserDescriptor(p: int)
    requires IsPfn(p)
    ensures var d := PfnToPa(p) + MMU_PTE_FLAGS;
      IsUserPage(d) && IsTableOrPage(d) && OutputAddress(d) == EntryGetAddr(d) == PfnToPa(p)
  {
    var f := p + 0x4_0180;
    SplitDescriptor(f, MMU_PTE_FLAGS);
    var d := f * PAGE_SIZE + MMU_PTE_FLAGS;
    assert d == (4 * f + 1) * 0x400 + 0x47 == (64 * f + 17) * 0x40 + 7;
    assert d / 0x400 == 4 * f + 1;
    assert d / 0x40 == 64 * f + 17;
  }

  lemma SplitDescriptor(frame: int, flags: int)
    requires 0 <= frame < VA_PAGES && 0 <= flags < PAGE_SIZE
    ensures var d := frame * PAGE_SIZE + flags;
      d / PAGE_SIZE == frame && d % PAGE_SIZE == flags && frame % VA_PAGES == frame
  {
  }

  /** The index fields are the digits of the page number in base 512. */
  lemma IndexFields(va: int)
    requires 0 <= va < 0x1_0000_0000_0000
    ensures var pn := PageNo(va);
      && Child(KeyOf(pn, 0), PgdIndex(va)) == KeyOf(pn, 1)
      && Child(KeyOf(pn, 1), PudIndex(va)) == KeyOf(pn, 2)
      && Child(KeyOf(pn, 2), PmdIndex(va)) == KeyOf(pn, 3)
      && Child(KeyOf(pn, 3), PteIndex(va)) == KeyOf(pn, 4)
  {
    var pn := va / 0x1000;
    assert pn == PageNo(va);
    var a := pn / 512;
    var b := a / 512;
    var c := b / 512;
    assert a == va / 0x20_0000;
    assert b == pn / 0x4_0000 && b == va / 0x4000_0000;
    assert c == pn / 0x800_0000 && c == va / 0x80_0000_0000;
  }

  // ---------------------------------------------------------------- mapping a page, as a function

  /** What an mm_struct describes: its tree, the tables in the order they were recorded, and the
      filled part of vma. */
  datatype Space = Space(nodes: map<Key, int>, tables: seq<Key>, vma: seq<Vma>)
  datatype Mapping = Mapping(space: Space, count: seq<int>)

  /** Adds node `k` on the page alloc_page picks, unless it is there already. */
  function Grow(g: Mapping, k: Key): Mapping {
    var p := HighestFree(g.count);
    if k in g.space.nodes || p < 0 then g else
    Mapping(Space(g.space.nodes[k := p],
                  if k.level < 4 then g.space.tables + [k] else g.space.tables,
                  g.space.vma),
            g.count[p := 1])
  }

  function GrowPath(g: Mapping, pn: int, level: nat): Mapping
    requires level <= 4
  {
    if level == 0 then g else Grow(GrowPath(g, pn, level - 1), KeyOf(pn, level))
  }

  /** alloc_user_page: the path to the page is completed and the page recorded if there is room. */
  function MapPage(g: Mapping, addr: int): Mapping {
    var g' := GrowPath(g, PageNo(addr), 4);
    g'.(space := Record(g'.space, addr))
  }

  function Record(s: Space, addr: int): Space {
    var k := KeyOf(PageNo(addr), 4);
    if |s.vma| < MAX_USER_PAGES && k in s.nodes
    then s.(vma := s.vma + [Vma(addr, PfnToPa(s.nodes[k]))])
    else s
  }

  /** Every page of the tree is allocated, once. */
  ghost predicate Allocated(nodes: map<Key, int>, c: seq<int>) {
    && |c| == PAGING_PAGES
    && forall k :: k in nodes ==> IsPfn(nodes[k]) && c[nodes[k]] == 1
  }

  ghost predicate IsTablePage(nodes: map<Key, int>, p: int) {
    exists k :: k in nodes && k.level < 4 && nodes[k] == p
  }

  /** Of the pages in use before, only tables of this tree may have changed. */
  ghost predicate OnlyTablesChanged(m: Memory, m': Memory, nodes: map<Key, int>, c: Counts) {
    forall p :: IsPfn(p) && c[p] != 0 && !IsTablePage(nodes, p) ==> SamePage(m, m', p)
  }

  /** Linking a zeroed free page under its parent extends the tree by one node. */
  lemma LinkNode(m: Memory, m0: Memory, nodes: map<Key, int>, k: Key, i: int, p: int)
    requires Tree(m, nodes) && k in nodes && k.level < 4 && 0 <= i < 512
    requires Child(k, i) !in nodes
    requires IsPfn(p) && forall j :: j in nodes ==> nodes[j] != p
    requires ZeroPage(m0, p)
    requires forall q :: IsPfn(q) && q != p ==> SamePage(m, m0, q)
    ensures var m' := m0[nodes[k] * WORDS + i := EntryFor(nodes[Child(k, i) := p], Child(k, i))];
      Tree(m', nodes[Child(k, i) := p])
  {
    var c := Child(k, i);
    var nodes' := nodes[c := p];
    var m': Memory := m0[nodes[k] * WORDS + i := EntryFor(nodes', c)];
    forall j | j in nodes' && j.level < 4
      ensures Table(m', nodes', j)
    {
      forall x | 0 <= x < WORDS
        ensures Entry(m', nodes'[j], x) == EntryFor(nodes', Child(j, x))
      {
        if j == c {
          assert Entry(m0, p, x) == 0;
          assert Parent(Child(c, x)) == c;
        } else {
          assert Table(m, nodes, j);
          assert SamePage(m, m0, nodes[j]);
          assert Entry(m0, nodes[j], x) == Entry(m, nodes[j], x);
        }
      }
    }
    assert Parent(c) == k;
  }

  /** What linking a node leaves alone. */
  lemma LinkFrame(m: Memory, m0: Memory, nodes: map<Key, int>, k: Key, i: int, p: int, w: Word, count: Counts)
    requires Tree(m, nodes) && Allocated(nodes, count)
    requires k in nodes && k.level < 4 && 0 <= i < 512
    requires IsPfn(p) && count[p] == 0 && ZeroPage(m0, p)
    requires forall q :: IsPfn(q) && q != p ==> SamePage(m, m0, q)
    ensures var m' := m0[nodes[k] * WORDS + i := w];
      ZeroPage(m', p) && OnlyTablesChanged(m, m', nodes, count)
    ensures Allocated(nodes[Child(k, i) := p], count[p := 1])
  {
    var m': Memory := m0[nodes[k] * WORDS + i := w];
    assert nodes[k] != p;
    forall x | 0 <= x < WORDS
      ensures Entry(m', p, x) == 0
    {
      assert Entry(m0, p, x) == 0;
    }
    forall q, x | IsPfn(q) && count[q] != 0 && !IsTablePage(nodes, q) && 0 <= x < WORDS
      ensures Entry(m', q, x) == Entry(m, q, x)
    {
      assert SamePage(m, m0, q);
    }
  }

  // ---------------------------------------------------------------- mm_struct

  /** The record arrays of an mm_struct, whatever they hold. */
  datatype Records = Records(vma: seq<Vma>, tables: seq<int>)

  /** The first element of vma with pa zero, or its length. */
  function FirstEmpty(v: seq<Vma>): (i: nat)
    ensures i <= |v| && (i < |v| ==> v[i].pa == 0)
    ensures forall j :: 0 <= j < i ==> v[j].pa != 0
  {
    if v == [] || v[0].pa == 0 then 0 else 1 + FirstEmpty(v[1..])
  }

  /** The first null pointer of an array, or its length. */
  function FirstNull(t: seq<int>): (i: nat)
    ensures i <= |t| && (i < |t| ==> t[i] == 0)
    ensures forall j :: 0 <= j < i ==> t[j] != 0
  {
    if t == [] || t[0] == 0 then 0 else 1 + FirstNull(t[1..])
  }

  /** A mapping goes to the first empty element of vma, if there is one. */
  function PutVma(v: seq<Vma>, e: Vma): (v': seq<Vma>)
    ensures |v'| == |v|
  {
    var i := FirstEmpty(v);
    if i < |v| then v[i := e] else v
  }

  /** Growing the tree by table `k` puts its page at place r.1, unless it is there already. */
  function PutTable(r: (seq<int>, nat), g: Mapping, k: Key): (r': (seq<int>, nat))
    ensures |r'.0| == |r.0|
  {
    var p := HighestFree(g.count);
    if k in g.space.nodes || p < 0 || r.1 >= |r.0| then r else (r.0[r.1 := PageVa(p)], r.1 + 1)
  }

  /** The tables alloc_user_page adds go, one behind the other, to where the first null pointer was. */
  function PutTables(t: seq<int>, g: Mapping, pn: int): (t': seq<int>)
    requires |t| == TABLE_WORDS
    ensures |t'| == |t|
  {
    var r1 := PutTable((t, FirstNull(t[..MAX_PGTBL_PAGES])), g, KeyOf(pn, 1));
    var r2 := PutTable(r1, GrowPath(g, pn, 1), KeyOf(pn, 2));
    PutTable(r2, GrowPath(g, pn, 2), KeyOf(pn, 3)).0
  }

  ghost predicate IsRecords(r: Records) {
    |r.vma| == MAX_USER_PAGES && |r.tables| == TABLE_WORDS
  }

  /** What alloc_user_page does to the arrays, whatever they hold. */
  function RecordPage(r: Records, g: Mapping, addr: int): (r': Records)
    requires |r.tables| == TABLE_WORDS
    ensures |r'.vma| == |r.vma| && |r'.tables| == |r.tables|
  {
    var k, nodes := KeyOf(PageNo(addr), 4), MapPage(g, addr).space.nodes;
    Records(if k in nodes then PutVma(r.vma, Vma(addr, PfnToPa(nodes[k]))) else r.vma,
            PutTables(r.tables, g, PageNo(addr)))
  }
  function RecordPages(r: Records, g: Mapping, start: int, n: nat): (r': Records)
    requires |r.tables| == TABLE_WORDS
    ensures |r'.vma| == |r.vma| && |r'.tables| == |r.tables|
  {
    if n == 0 then r
    else RecordPage(RecordPages(r, g, start, n - 1), MapPages(g, start, n - 1), start + (n - 1) * PAGE_SIZE)
  }

  /** The arrays hold the records of `s` in their filled prefix and nothing after it. */
  ghost predicate Holds(r: Records, s: Space) {
    && IsRecords(r) && HoldsPages(r.vma, s.vma) && HoldsTables(r.tables, s)
  }
  ghost predicate HoldsPages(v: seq<Vma>, vma: seq<Vma>)
    requires |v| == MAX_USER_PAGES
  {
    && |vma| <= MAX_USER_PAGES
    && forall i :: 0 <= i < MAX_USER_PAGES ==>
         if i < |vma| then v[i] == vma[i] && v[i].pa != 0 else v[i].pa == 0
  }
  ghost predicate HoldsTables(t: seq<int>, s: Space)
    requires |t| == TABLE_WORDS
  {
    && |s.tables| <= MAX_PGTBL_PAGES
    && forall i :: 0 <= i < MAX_PGTBL_PAGES ==>
         if i < |s.tables| then s.tables[i] in s.nodes && t[i] == PageVa(s.nodes[s.tables[i]]) else t[i] == 0
  }

  class MmStruct {
    var pgd: int
    const vma: array<Vma>
    const pgtblPage: array<int>
    ghost var space: Space

    constructor (vma: array<Vma>, pgtblPage: array<int>)
      ensures this.vma == vma && this.pgtblPage == pgtblPage
    {
      this.vma, this.pgtblPage, pgd, space := vma, pgtblPage, 0, Space(map[], [], []);
    }

    ghost predicate Shape() {
      vma.Length == MAX_USER_PAGES && pgtblPage.Length == TABLE_WORDS
    }

    ghost function Raw(): (r: Records)
      requires Shape()
      reads vma, pgtblPage
      ensures IsRecords(r)
    {
      Records(vma[..], pgtblPage[..])
    }

    ghost predicate Recorded()
      requires Shape()
      reads this, vma, pgtblPage
    {
      Holds(Raw(), space)
    }

    ghost predicate Valid(ram: Ram)
      reads this, ram.mem, ram.count
    {
      && ram.Valid() && Shape()
      && {ram.mem as object, ram.count} !! {vma as object, pgtblPage, this} && vma as object != pgtblPage
      && Tree(ram.Mem(), space.nodes)
      && Allocated(space.nodes, ram.Count())
      && pgd == PfnToPa(space.nodes[Key(0, 0)])
    }
  }

  /** Makes sure that entry `index` of the table at `table` is filled; `va` is the page taken for it,
      or 0. */
  method FillEntry(ram: Ram, table: int, index: int, flags: int, ghost nodes: map<Key, int>, ghost k: Key)
    returns (entry: int, va: int)
    requires ram.Valid() && FreePages(ram.Count()) > 0
    requires Tree(ram.Mem(), nodes) && Allocated(nodes, ram.Count())
    requires k in nodes && k.level < 4 && table == PfnToPa(nodes[k]) && 0 <= index < 512
    requires flags == if k.level == 3 then MMU_PTE_FLAGS else MM_TYPE_PAGE_TABLE
    modifies ram.mem, ram.count
    ensures Child(k, index) in nodes ==>
      && ram.Count() == old(ram.Count()) && ram.Mem() == old(ram.Mem()) && va == 0
      && EntryGetAddr(entry) == PfnToPa(nodes[Child(k, index)])
    ensures Child(k, index) !in nodes ==>
      var p := HighestFree(old(ram.Count()));
      && IsPfn(p) && va == PageVa(p) && EntryGetAddr(entry) == PfnToPa(p)
      && ram.Count() == old(ram.Count())[p := 1]
      && Tree(ram.Mem(), nodes[Child(k, index) := p])
      && Allocated(nodes[Child(k, index) := p], ram.Count())
      && ZeroPage(ram.Mem(), p)
    ensures OnlyTablesChanged(old(ram.Mem()), ram.Mem(), nodes, old(ram.Count()))
    ensures FreePages(ram.Count()) >= old(FreePages(ram.Count())) - 1
  {
    ghost var c := Child(k, index);
    ghost var m := ram.Mem();
    EntryAddress(nodes[k], index);
    assert Table(m, nodes, k);
    assert Entry(m, nodes[k], index) == EntryFor(nodes, c);
    FreePagesPositive(ram.Count());
    assert OnlyTablesChanged(m, m, nodes, ram.Count());
    hide FreePages, HighestFree, SamePage, ZeroPage, OnlyTablesChanged, Table;
    va := 0;
    entry := ram.Load(Va(table) + index * 8);
    if entry != 0 {
      TableDescriptor(nodes[c]);
      UserDescriptor(nodes[c]);
    } else {
      ghost var p;
      va, p := ram.GetFreePage();
      ghost var m0 := ram.Mem();
      entry := Pa(va) + flags;
      assert EntryGetAddr(entry) == PfnToPa(p) by {
        TableDescriptor(p);
        UserDescriptor(p);
      }
      ram.Store(Va(table) + index * 8, entry);
      TakePage(old(ram.Count()), p);
      assert ram.Mem() == m0[nodes[k] * WORDS + index := EntryFor(nodes[c := p], c)];
      LinkNode(m, m0, nodes, k, index, p);
      assert Tree(ram.Mem(), nodes[c := p]);
      LinkFrame(m, m0, nodes, k, index, p, entry, old(ram.Count()));
    }
  }

  /** One table level of alloc_user_page: the entry is filled if need be and a new table recorded. */
  method EnsureTable(ram: Ram, mm: MmStruct, table: int, index: int, idx: int, ghost k: Key)
    returns (entry: int, idx': int)
    requires mm.Valid(ram) && FreePages(ram.Count()) > 0
    requires k in mm.space.nodes && k.level < 3 && table == PfnToPa(mm.space.nodes[k]) && 0 <= index < 512
    requires 0 <= idx < TABLE_WORDS
    modifies ram.mem, ram.count, mm`space, mm.pgtblPage
    ensures mm.Valid(ram)
    ensures Mapping(mm.space, ram.Count()) == Grow(old(Mapping(mm.space, ram.Count())), Child(k, index))
    ensures Child(k, index) in mm.space.nodes
    ensures EntryGetAddr(entry) == PfnToPa(mm.space.nodes[Child(k, index)])
    ensures (mm.pgtblPage[..], idx')
      == PutTable((old(mm.pgtblPage[..]), idx), old(Mapping(mm.space, ram.Count())), Child(k, index))
    ensures idx <= idx' <= idx + 1
    ensures OnlyTablesChanged(old(ram.Mem()), ram.Mem(), old(mm.space.nodes), old(ram.Count()))
    ensures FreePages(ram.Count()) >= old(FreePages(ram.Count())) - 1
  {
    hide Tree, ZeroPage, OnlyTablesChanged;
    ghost var g := Mapping(mm.space, ram.Count());
    FreePagesPositive(ram.Count());
    idx' := idx;
    var va;
    entry, va := FillEntry(ram, table, index, MM_TYPE_PAGE_TABLE, mm.space.nodes, k);
    ghost var g' := Grow(g, Child(k, index));
    assert Allocated(g'.space.nodes, ram.Count()) && Tree(ram.Mem(), g'.space.nodes) && g'.count == ram.Count();
    mm.space := g'.space;
    if va != 0 {
      mm.pgtblPage[idx] := va;
      idx' := idx + 1;
    }
  }

  /** The last level of alloc_user_page, which takes a user page and is not recorded as a table. */
  method EnsurePage(ram: Ram, mm: MmStruct, table: int, index: int, ghost k: Key) returns (entry: int)
    requires mm.Valid(ram) && FreePages(ram.Count()) > 0
    requires k in mm.space.nodes && k.level == 3 && table == PfnToPa(mm.space.nodes[k]) && 0 <= index < 512
    modifies ram.mem, ram.count, mm`space
    ensures mm.Valid(ram)
    ensures Mapping(mm.space, ram.Count()) == Grow(old(Mapping(mm.space, ram.Count())), Child(k, index))
    ensures Child(k, index) in mm.space.nodes
    ensures EntryGetAddr(entry) == PfnToPa(mm.space.nodes[Child(k, index)])
    ensures Child(k, index) !in old(mm.space.nodes) ==> ZeroPage(ram.Mem(), mm.space.nodes[Child(k, index)])
    ensures OnlyTablesChanged(old(ram.Mem()), ram.Mem(), old(mm.space.nodes), old(ram.Count()))
    ensures FreePages(ram.Count()) >= old(FreePages(ram.Count())) - 1
  {
    hide Tree, ZeroPage, OnlyTablesChanged;
    FreePagesPositive(ram.Count());
    ghost var g' := Grow(Mapping(mm.space, ram.Count()), Child(k, index));
    var va;
    entry, va := FillEntry(ram, table, index, MMU_PTE_FLAGS, mm.space.nodes, k);
    assert Allocated(g'.space.nodes, ram.Count()) && Tree(ram.Mem(), g'.space.nodes) && g'.count == ram.Count();
    mm.space := g'.space;
  }

  /** `g'` adds to `g` nodes on pages that were free. */
  ghost predicate Extends(g: Mapping, g': Mapping) {
    && |g.count| == |g'.count| == PAGING_PAGES
    && (forall k :: k in g.space.nodes ==> k in g'.space.nodes && g'.space.nodes[k] == g.space.nodes[k])
    && (forall k :: k in g'.space.nodes && k !in g.space.nodes ==>
          IsPfn(g'.space.nodes[k]) && g.count[g'.space.nodes[k]] == 0)
    && (forall p :: IsPfn(p) && g.count[p] != 0 ==> g'.count[p] == g.count[p])
  }

  lemma GrowExtends(g: Mapping, k: Key)
    requires |g.count| == PAGING_PAGES
    ensures Extends(g, Grow(g, k))
  {
  }

  lemma ExtendsTransitive(g0: Mapping, g1: Mapping, g2: Mapping)
    requires Extends(g0, g1) && Extends(g1, g2)
    ensures Extends(g0, g2)
  {
    forall k | k in g2.space.nodes && k !in g0.space.nodes
      ensures IsPfn(g2.space.nodes[k]) && g0.count[g2.space.nodes[k]] == 0
    {
      if k in g1.space.nodes {
        assert g2.space.nodes[k] == g1.space.nodes[k];
      }
    }
  }

  /** Changes confined to tables of a growing tree are confined, on the pages in use at the start, to
      the tables of the starting tree. */
  lemma FrameTransitive(m0: Memory, m1: Memory, m2: Memory, g0: Mapping, g1: Mapping)
    requires Extends(g0, g1)
    requires OnlyTablesChanged(m0, m1, g0.space.nodes, g0.count)
    requires OnlyTablesChanged(m1, m2, g1.space.nodes, g1.count)
    ensures OnlyTablesChanged(m0, m2, g0.space.nodes, g0.count)
  {
    forall p | IsPfn(p) && g0.count[p] != 0 && !IsTablePage(g0.space.nodes, p)
      ensures SamePage(m0, m2, p)
    {
      assert !IsTablePage(g1.space.nodes, p);
      assert SamePage(m0, m1, p) && SamePage(m1, m2, p);
    }
  }

  /** The three table levels of alloc_user_page. */
  method EnsureTables(ram: Ram, mm: MmStruct, addr: int) returns (entry: int)
    requires mm.Valid(ram) && 0 <= addr < 0x1_0000_0000_0000
    requires FreePages(ram.Count()) >= 3
    modifies ram.mem, ram.count, mm`space, mm.pgtblPage
    ensures mm.Valid(ram)
    ensures Mapping(mm.space, ram.Count()) == GrowPath(old(Mapping(mm.space, ram.Count())), PageNo(addr), 3)
    ensures KeyOf(PageNo(addr), 3) in mm.space.nodes
    ensures EntryGetAddr(entry) == PfnToPa(mm.space.nodes[KeyOf(PageNo(addr), 3)])
    ensures mm.pgtblPage[..] == PutTables(old(mm.pgtblPage[..]), old(Mapping(mm.space, ram.Count())), PageNo(addr))
    ensures OnlyTablesChanged(old(ram.Mem()), ram.Mem(), old(mm.space.nodes), old(ram.Count()))
    ensures FreePages(ram.Count()) >= old(FreePages(ram.Count())) - 3
  {
    hide Tree, OnlyTablesChanged, Extends, GrowPath, Grow, PutTable, KeyOf, PageNo, PgdIndex, PudIndex, PmdIndex;
    ghost var pn := PageNo(addr);
    ghost var g0, m0, t0 := Mapping(mm.space, ram.Count()), ram.Mem(), mm.pgtblPage[..];
    GrowPathSteps(g0, pn);
    IndexFields(addr);
    RootOf(ram, mm, pn);
    var idx := 0;
    while idx < MAX_PGTBL_PAGES && mm.pgtblPage[idx] != 0
      invariant 0 <= idx <= MAX_PGTBL_PAGES && forall j :: 0 <= j < idx ==> mm.pgtblPage[j] != 0
    {
      idx := idx + 1;
    }
    assert idx == FirstNull(mm.pgtblPage[..][..MAX_PGTBL_PAGES]);

    entry, idx := EnsureTable(ram, mm, mm.pgd, PgdIndex(addr), idx, KeyOf(pn, 0));
    ghost var g1, m1 := Mapping(mm.space, ram.Count()), ram.Mem();
    GrowExtends(g0, KeyOf(pn, 1));
    entry, idx := EnsureTable(ram, mm, EntryGetAddr(entry), PudIndex(addr), idx, KeyOf(pn, 1));
    ghost var g2, m2 := Mapping(mm.space, ram.Count()), ram.Mem();
    GrowExtends(g1, KeyOf(pn, 2));
    ExtendsTransitive(g0, g1, g2);
    FrameTransitive(m0, m1, m2, g0, g1);
    entry, idx := EnsureTable(ram, mm, EntryGetAddr(entry), PmdIndex(addr), idx, KeyOf(pn, 2));
    FrameTransitive(m0, m2, ram.Mem(), g0, g2);
  }

  lemma RootOf(ram: Ram, mm: MmStruct, pn: int)
    requires mm.Valid(ram)
    ensures KeyOf(pn, 0) in mm.space.nodes && mm.pgd == PfnToPa(mm.space.nodes[KeyOf(pn, 0)])
  {
  }

  lemma GrowPathSteps(g: Mapping, pn: int)
    ensures GrowPath(g, pn, 1) == Grow(g, KeyOf(pn, 1))
    ensures GrowPath(g, pn, 2) == Grow(GrowPath(g, pn, 1), KeyOf(pn, 2))
    ensures GrowPath(g, pn, 3) == Grow(GrowPath(g, pn, 2), KeyOf(pn, 3))
    ensures GrowPath(g, pn, 4) == Grow(GrowPath(g, pn, 3), KeyOf(pn, 4))
  {
    assert GrowPath(g, pn, 1) == Grow(GrowPath(g, pn, 0), KeyOf(pn, 1));
  }

  method AllocUserPage(ram: Ram, addr: int, mm: MmStruct)
    requires mm.Valid(ram) && 0 <= addr < 0x1_0000_0000_0000
    requires FreePages(ram.Count()) >= 4
    modifies ram.mem, ram.count, mm`space, mm.pgtblPage, mm.vma
    ensures mm.Valid(ram)
    ensures Mapping(mm.space, ram.Count()) == MapPage(old(Mapping(mm.space, ram.Count())), addr)
    ensures mm.Raw() == RecordPage(old(mm.Raw()), old(Mapping(mm.space, ram.Count())), addr)
    ensures OnlyTablesChanged(old(ram.Mem()), ram.Mem(), old(mm.space.nodes), old(ram.Count()))
    ensures FreePages(ram.Count()) >= old(FreePages(ram.Count())) - 4
    ensures KeyOf(PageNo(addr), 4) in mm.space.nodes
    ensures KeyOf(PageNo(addr), 4) !in old(mm.space.nodes) ==>
      ZeroPage(ram.Mem(), mm.space.nodes[KeyOf(PageNo(addr), 4)])
  {
    hide Tree, ZeroPage, OnlyTablesChanged, Extends, KeyOf, PageNo, PteIndex, PutTables, PutVma, Grow, GrowPath;
    ghost var pn := PageNo(addr);
    ghost var g0, m0 := Mapping(mm.space, ram.Count()), ram.Mem();
    GrowPathSteps(g0, pn);
    var entry := EnsureTables(ram, mm, addr);
    ghost var g1, m1 := Mapping(mm.space, ram.Count()), ram.Mem();
    GrowPathExtends(g0, pn, 3);
    if KeyOf(pn, 4) !in g0.space.nodes && KeyOf(pn, 4) in g1.space.nodes {
      GrowPathNodes(g0, pn, 3, KeyOf(pn, 4));
    }
    IndexFields(addr);
    entry := EnsurePage(ram, mm, EntryGetAddr(entry), PteIndex(addr), KeyOf(pn, 3));
    FrameTransitive(m0, m1, ram.Mem(), g0, g1);
    RecordUserPage(mm, addr, EntryGetAddr(entry));
  }

  /** The loop that puts the page in the first free element of vma, if there is one. */
  method RecordUserPage(mm: MmStruct, addr: int, pa: int)
    requires mm.Shape()
    modifies mm`space, mm.vma
    ensures mm.vma[..] == PutVma(old(mm.vma[..]), Vma(addr, pa))
    ensures mm.space == old(mm.space).(vma := if |old(mm.space.vma)| < MAX_USER_PAGES
                                              then old(mm.space.vma) + [Vma(addr, pa)] else old(mm.space.vma))
  {
    if |mm.space.vma| < MAX_USER_PAGES {
      mm.space := mm.space.(vma := mm.space.vma + [Vma(addr, pa)]);
    }
    var i := 0;
    while i < MAX_USER_PAGES
      invariant 0 <= i <= MAX_USER_PAGES && mm.vma[..] == old(mm.vma[..])
      invariant forall j :: 0 <= j < i ==> mm.vma[j].pa != 0
    {
      if mm.vma[i].pa == 0 {
        assert i == FirstEmpty(mm.vma[..]);
        mm.vma[i] := Vma(addr, pa);
        return;
      }
      i := i + 1;
    }
  }

  lemma GrowPathExtends(g: Mapping, pn: int, level: nat)
    requires level <= 4 && |g.count| == PAGING_PAGES
    ensures Extends(g, GrowPath(g, pn, level))
  {
    if level > 0 {
      GrowPathExtends(g, pn, level - 1);
      GrowExtends(GrowPath(g, pn, level - 1), KeyOf(pn, level));
      ExtendsTransitive(g, GrowPath(g, pn, level - 1), GrowPath(g, pn, level));
    }
  }

  // ---------------------------------------------------------------- a range of pages

  /** Pages needed for `size` bytes, rounded up. */
  function PagesFor(size: nat): nat {
    if size % 4096 != 0 then size / 4096 + 1 else size / 4096
  }

  function MapPages(g: Mapping, start: int, n: nat): Mapping {
    if n == 0 then g else MapPage(MapPages(g, start, n - 1), start + (n - 1) * PAGE_SIZE)
  }

  lemma MapPageExtends(g: Mapping, addr: int)
    requires |g.count| == PAGING_PAGES
    ensures Extends(g, MapPage(g, addr))
  {
    GrowPathExtends(g, PageNo(addr), 4);
  }

  lemma {:induction false} MapPagesExtends(g: Mapping, start: int, n: nat)
    requires |g.count| == PAGING_PAGES
    ensures Extends(g, MapPages(g, start, n))
  {
    if n > 0 {
      MapPagesExtends(g, start, n - 1);
      var h := MapPages(g, start, n - 1);
      MapPageExtends(h, start + (n - 1) * PAGE_SIZE);
      ExtendsTransitive(g, h, MapPages(g, start, n));
    }
  }

  /** The page mapped at the `i`th page from `start`. */
  function LeafKey(start: int, i: int): (k: Key)
    ensures k.level == 4
  {
    KeyOf(PageNo(start + i * PAGE_SIZE), 4)
  }

  /** The `n` pages from `start` are mapped, and those that were not before are clear. */
  ghost predicate FreshLeaves(m: Memory, before: map<Key, int>, nodes: map<Key, int>, start: int, n: nat) {
    forall i :: 0 <= i < n ==>
      var k := LeafKey(start, i);
      k in nodes && IsPfn(nodes[k]) && (k !in before ==> ZeroPage(m, nodes[k]))
  }

  method AllocUserPages(ram: Ram, start: int, size: nat, mm: MmStruct)
    requires mm.Valid(ram) && 0 <= start && start + PagesFor(size) * PAGE_SIZE <= 0x1_0000_0000_0000
    requires FreePages(ram.Count()) >= 4 * PagesFor(size)
    modifies ram.mem, ram.count, mm`space, mm.pgtblPage, mm.vma
    ensures mm.Valid(ram)
    ensures Mapping(mm.space, ram.Count()) == MapPages(old(Mapping(mm.space, ram.Count())), start, PagesFor(size))
    ensures mm.Raw() == RecordPages(old(mm.Raw()), old(Mapping(mm.space, ram.Count())), start, PagesFor(size))
    ensures OnlyTablesChanged(old(ram.Mem()), ram.Mem(), old(mm.space.nodes), old(ram.Count()))
    ensures FreePages(ram.Count()) >= old(FreePages(ram.Count())) - 4 * PagesFor(size)
    ensures FreshLeaves(ram.Mem(), old(mm.space.nodes), mm.space.nodes, start, PagesFor(size))
    ensures start % PAGE_SIZE == 0 ==> BytesMapped(old(ram.Mem()), ram.Mem(), mm.pgd, start, size)
  {
    hide Tree, ZeroPage, OnlyTablesChanged, Extends, KeyOf, PageNo, FreshLeaves, MapPage, MapPages, RecordPage,
         RecordPages, BytesMapped;
    var sz := if size % 4096 != 0 then size / 4096 + 1 else size / 4096;
    ghost var g0, m0, r0 := Mapping(mm.space, ram.Count()), ram.Mem(), mm.Raw();
    var i := 0;
    RangeStep(r0, g0, start, 0);
    NothingChanged(m0, g0, start);
    while i < sz
      invariant 0 <= i <= sz && mm.Valid(ram)
      invariant Mapping(mm.space, ram.Count()) == MapPages(g0, start, i)
      invariant mm.Raw() == RecordPages(r0, g0, start, i)
      invariant OnlyTablesChanged(m0, ram.Mem(), g0.space.nodes, g0.count)
      invariant FreePages(ram.Count()) >= FreePages(g0.count) - 4 * i
      invariant FreshLeaves(ram.Mem(), g0.space.nodes, mm.space.nodes, start, i)
    {
      ghost var g, m := Mapping(mm.space, ram.Count()), ram.Mem();
      MapPagesExtends(g0, start, i);
      MapPageExtends(g, start + i * PAGE_SIZE);
      RangeStep(r0, g0, start, i);
      AllocUserPage(ram, start + i * PAGE_SIZE, mm);
      ghost var g' := Mapping(mm.space, ram.Count());
      FrameTransitive(m0, m, ram.Mem(), g0, g);
      FreshLeavesStep(m, ram.Mem(), g0, g, g', start, i);
      i := i + 1;
    }
    if start % PAGE_SIZE == 0 {
      BytesAreMapped(m0, ram.Mem(), g0, start, size);
    }
  }

  lemma RangeStep(r: Records, g: Mapping, start: int, i: nat)
    requires |r.tables| == TABLE_WORDS
    ensures MapPages(g, start, 0) == g && RecordPages(r, g, start, 0) == r
    ensures MapPages(g, start, i + 1) == MapPage(MapPages(g, start, i), start + i * PAGE_SIZE)
    ensures RecordPages(r, g, start, i + 1)
      == RecordPage(RecordPages(r, g, start, i), MapPages(g, start, i), start + i * PAGE_SIZE)
  {
  }

  lemma {:induction false} GrowPathNodes(g: Mapping, pn: int, level: nat, k: Key)
    requires level <= 4
    requires k in GrowPath(g, pn, level).space.nodes && k !in g.space.nodes
    ensures 1 <= k.level <= level && k == KeyOf(pn, k.level)
  {
    if level > 0 && k in GrowPath(g, pn, level - 1).space.nodes {
      GrowPathNodes(g, pn, level - 1, k);
    }
  }

  /** The only pages a range maps are its own. */
  lemma {:induction false} MapPagesLeaves(g: Mapping, start: int, n: nat, k: Key)
    requires k in MapPages(g, start, n).space.nodes && k !in g.space.nodes && k.level == 4
    ensures exists i :: 0 <= i < n && k == LeafKey(start, i)
  {
    if n > 0 {
      var h := MapPages(g, start, n - 1);
      if k in h.space.nodes {
        MapPagesLeaves(g, start, n - 1, k);
      } else {
        GrowPathNodes(h, PageNo(start + (n - 1) * PAGE_SIZE), 4, k);
        assert k == LeafKey(start, n - 1);
      }
    }
  }

  /** Mapped pages keep their place and contents while another page is mapped. */
  lemma FreshLeavesStep(m: Memory, m': Memory, g0: Mapping, g: Mapping, g': Mapping, start: int, n: nat)
    requires Tree(m, g.space.nodes) && Allocated(g.space.nodes, g.count)
    requires Allocated(g'.space.nodes, g'.count)
    requires g == MapPages(g0, start, n)
    requires Extends(g, g') && OnlyTablesChanged(m, m', g.space.nodes, g.count)
    requires FreshLeaves(m, g0.space.nodes, g.space.nodes, start, n)
    requires LeafKey(start, n) in g'.space.nodes
    requires LeafKey(start, n) !in g.space.nodes ==> ZeroPage(m', g'.space.nodes[LeafKey(start, n)])
    ensures FreshLeaves(m', g0.space.nodes, g'.space.nodes, start, n + 1)
  {
    hide LeafKey, MapPages, Tree, ZeroPage, SamePage, OnlyTablesChanged;
    forall i | 0 <= i < n + 1
      ensures var k := LeafKey(start, i);
        && k in g'.space.nodes && IsPfn(g'.space.nodes[k])
        && (k !in g0.space.nodes ==> ZeroPage(m', g'.space.nodes[k]))
    {
      var k := LeafKey(start, i);
      if k in g.space.nodes {
        LeafKept(m, m', g, g', k);
        if k !in g0.space.nodes {
          MapPagesLeaves(g0, start, n, k);
          var j :| 0 <= j < n && k == LeafKey(start, j);
          assert ZeroPage(m, g.space.nodes[k]);
        }
      } else {
        assert i == n;
      }
    }
  }

  lemma NothingChanged(m: Memory, g: Mapping, start: int)
    requires |g.count| == PAGING_PAGES
    ensures OnlyTablesChanged(m, m, g.space.nodes, g.count)
    ensures FreshLeaves(m, g.space.nodes, g.space.nodes, start, 0)
  {
  }

  /** A user page keeps its place and its contents while the tree grows. */
  lemma LeafKept(m: Memory, m': Memory, g: Mapping, g': Mapping, k: Key)
    requires Tree(m, g.space.nodes) && Allocated(g.space.nodes, g.count) && Extends(g, g')
    requires OnlyTablesChanged(m, m', g.space.nodes, g.count)
    requires k in g.space.nodes && k.level == 4
    ensures k in g'.space.nodes && g'.space.nodes[k] == g.space.nodes[k]
    ensures SamePage(m, m', g.space.nodes[k])
    ensures ZeroPage(m, g.space.nodes[k]) ==> ZeroPage(m', g.space.nodes[k])
  {
    assert !IsTablePage(g.space.nodes, g.space.nodes[k]);
    assert SamePage(m, m', g.space.nodes[k]);
  }

  // ---------------------------------------------------------------- what mapping means

  lemma {:induction false} GrowPathGrows(g: Mapping, pn: int, level: nat)
    requires level <= 4 && |g.count| == PAGING_PAGES && FreePages(g.count) >= level
    ensures FreePages(GrowPath(g, pn, level).count) >= FreePages(g.count) - level
    ensures level > 0 ==> KeyOf(pn, level) in GrowPath(g, pn, level).space.nodes
  {
    hide KeyOf;
    if level > 0 {
      GrowPathGrows(g, pn, level - 1);
      GrowPathExtends(g, pn, level - 1);
      var h := GrowPath(g, pn, level - 1);
      FreePagesPositive(h.count);
      TakePage(h.count, HighestFree(h.count));
    }
  }

  lemma MapPageGrows(g: Mapping, addr: int)
    requires |g.count| == PAGING_PAGES && FreePages(g.count) >= 4
    ensures FreePages(MapPage(g, addr).count) >= FreePages(g.count) - 4
    ensures KeyOf(PageNo(addr), 4) in MapPage(g, addr).space.nodes
  {
    hide KeyOf, PageNo, GrowPath;
    GrowPathGrows(g, PageNo(addr), 4);
  }

  lemma {:induction false} MapPagesGrows(g: Mapping, start: int, n: nat, i: int)
    requires |g.count| == PAGING_PAGES && FreePages(g.count) >= 4 * n && 0 <= i <= n
    ensures FreePages(MapPages(g, start, n).count) >= FreePages(g.count) - 4 * n
    ensures i < n ==> LeafKey(start, i) in MapPages(g, start, n).space.nodes
  {
    hide KeyOf, PageNo, MapPage, FreePages;
    if n > 0 {
      var h := MapPages(g, start, n - 1);
      MapPagesExtends(g, start, n - 1);
      MapPagesGrows(g, start, n - 1, if i < n then i else n - 1);
      MapPageExtends(h, start + (n - 1) * PAGE_SIZE);
      MapPageGrows(h, start + (n - 1) * PAGE_SIZE);
    }
  }

  /** Pages of a range below 2^48 are numbered consecutively. */
  lemma LeafNumber(start: int, i: int)
    requires 0 <= start && 0 <= i && start + (i + 1) * PAGE_SIZE <= 0x1_0000_0000_0000
    ensures LeafKey(start, i) == Key(4, start / 4096 + i)
  {
    assert (start + i * 0x1000) / 0x1000 == start / 4096 + i;
  }

  ghost predicate InRange(start: int, n: nat, va: int) {
    start / 4096 <= va / 4096 < start / 4096 + n
  }

  /** Mapping a range is a map update: what was mapped keeps its translation, and exactly the pages of
      the range that were not are now mapped, each to a page that was free. */
  lemma RangeIsUpdate(m: Memory, m': Memory, g: Mapping, start: int, n: nat, va: int)
    requires Tree(m, g.space.nodes) && Tree(m', MapPages(g, start, n).space.nodes)
    requires |g.count| == PAGING_PAGES && FreePages(g.count) >= 4 * n
    requires 0 <= start && start + n * PAGE_SIZE <= 0x1_0000_0000_0000
    requires 0 <= va < 0x1_0000_0000_0000
    ensures var root := PfnToPa(g.space.nodes[Key(0, 0)]);
      var before, after := Translate(m, root, va), Translate(m', root, va);
      && (before.Phys? ==> after == before)
      && (before.Fault? ==>
           && (after.Phys? <==> InRange(start, n, va))
           && (after.Phys? ==> exists p :: IsPfn(p) && g.count[p] == 0 && after == Phys(PfnToPa(p) + va % PAGE_SIZE)))
  {
    var g' := MapPages(g, start, n);
    var k := KeyOf(PageNo(va), 4);
    assert k == Key(4, va / 4096) && k.prefix == va / 4096;
    hide KeyOf, PageNo, LeafKey, MapPages, Translate, Tree;
    MapPagesExtends(g, start, n);
    TreeTranslates(m, g.space.nodes, va);
    TreeTranslates(m', g'.space.nodes, va);
    if k !in g.space.nodes {
      if k in g'.space.nodes {
        MapPagesLeaves(g, start, n, k);
        var i :| 0 <= i < n && k == LeafKey(start, i);
        LeafNumber(start, i);
      }
      if InRange(start, n, va) {
        var i := va / 4096 - start / 4096;
        LeafNumber(start, i);
        MapPagesGrows(g, start, n, i);
      }
    }
  }

  ghost predicate SharePage(a: int, va: int) { a / PAGE_SIZE == va / PAGE_SIZE }

  /** The page of `va` holds one of the `size` bytes from `start`. */
  ghost predicate HoldsByte(start: int, size: nat, va: int) {
    exists a :: start <= a < start + size && SharePage(a, va)
  }

  /** What was mapped keeps its translation, and of the other pages those with a byte of the range, and no others, are
      mapped now. */
  ghost predicate BytesMapped(m: Memory, m': Memory, root: int, start: int, size: nat) {
    forall va :: 0 <= va < 0x1_0000_0000_0000 ==>
      var before, after := Translate(m, root, va), Translate(m', root, va);
      if before.Phys? then after == before else after.Phys? == HoldsByte(start, size, va)
  }

  /** From the start of a page, the pages counted are those with a byte of the range. */
  lemma RangeHoldsBytes(start: int, size: nat, va: int)
    requires 0 <= start && start % PAGE_SIZE == 0
    ensures InRange(start, PagesFor(size), va) <==> HoldsByte(start, size, va)
  {
    if InRange(start, PagesFor(size), va) {
      assert SharePage(if va >= start + size then start + size - 1 else va, va);
    }
  }

  /** From elsewhere they leave out the last byte if, and only if, the range runs into one page more. */
  lemma LastByteIff(start: int, size: nat)
    requires 0 <= start && size > 0
    ensures InRange(start, PagesFor(size), start + size - 1) <==> start % PAGE_SIZE + (size - 1) % PAGE_SIZE < PAGE_SIZE
  {
  }

  lemma BytesAreMapped(m: Memory, m': Memory, g: Mapping, start: int, size: nat)
    requires Tree(m, g.space.nodes) && Tree(m', MapPages(g, start, PagesFor(size)).space.nodes)
    requires |g.count| == PAGING_PAGES && FreePages(g.count) >= 4 * PagesFor(size)
    requires 0 <= start && start % PAGE_SIZE == 0 && start + PagesFor(size) * PAGE_SIZE <= 0x1_0000_0000_0000
    ensures BytesMapped(m, m', PfnToPa(g.space.nodes[Key(0, 0)]), start, size)
  {
    var root := PfnToPa(g.space.nodes[Key(0, 0)]);
    hide Tree, MapPages, Translate, PagesFor, InRange, HoldsByte, FreePages;
    forall va | 0 <= va < 0x1_0000_0000_0000
      ensures var before, after := Translate(m, root, va), Translate(m', root, va);
        if before.Phys? then after == before else after.Phys? == HoldsByte(start, size, va)
    {
      RangeIsUpdate(m, m', g, start, PagesFor(size), va);
      RangeHoldsBytes(start, size, va);
    }
  }

  ghost predicate DisjointTrees(a: map<Key, int>, b: map<Key, int>) {
    forall k, j :: k in a && j in b ==> a[k] != b[j]
  }

  /** Growing one tree leaves every other address space as it was, and apart. */
  lemma OtherSpaceKept(m: Memory, m': Memory, g: Mapping, g': Mapping, other: map<Key, int>, va: int)
    requires Tree(m, g.space.nodes) && Tree(m, other) && Allocated(other, g.count)
    requires DisjointTrees(g.space.nodes, other)
    requires Extends(g, g') && OnlyTablesChanged(m, m', g.space.nodes, g.count)
    ensures Tree(m', other) && Allocated(other, g'.count) && DisjointTrees(g'.space.nodes, other)
    ensures Translate(m', PfnToPa(other[Key(0, 0)]), va) == Translate(m, PfnToPa(other[Key(0, 0)]), va)
    ensures forall k :: k in other ==> SamePage(m, m', other[k])
  {
    hide Translate;
    forall k | k in other
      ensures SamePage(m, m', other[k])
    {
      assert !IsTablePage(g.space.nodes, other[k]);
    }
    TreeKept(m, m', other);
    if 0 <= va < 0x1_0000_0000_0000 {
      TreeTranslates(m, other, va);
      TreeTranslates(m', other, va);
    } else {
      NoTranslation(m, m', PfnToPa(other[Key(0, 0)]), va);
    }
  }

  /** A tree whose tables are not written is still there. */
  lemma TreeKept(m: Memory, m': Memory, nodes: map<Key, int>)
    requires Tree(m, nodes)
    requires forall k :: k in nodes && k.level < 4 ==> IsPfn(nodes[k]) && SamePage(m, m', nodes[k])
    ensures Tree(m', nodes)
  {
    forall k | k in nodes && k.level < 4
      ensures Table(m', nodes, k)
    {
      assert Table(m, nodes, k) && SamePage(m, m', nodes[k]);
    }
  }

  lemma NoTranslation(m: Memory, m': Memory, ttbr: int, va: int)
    requires !(0 <= va < 0x1_0000_0000_0000)
    ensures Translate(m', ttbr, va) == Translate(m, ttbr, va)
  {
  }
}
