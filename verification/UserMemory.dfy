/** Bytes of RAM, and what a process reads and writes through its page table. */
module UserMemory {
  import opened Bytes
  import opened PhysMem
  import opened PageTable

  /** Byte `i` of a little-endian word. */
  function ByteOf(w: nat, i: nat): (b: int)
    ensures 0 <= b < 256
  {
    if i == 0 then w % 256 else ByteOf(w / 256, i - 1)
  }
  function SetByte(w: nat, i: nat, b: int): nat
    requires 0 <= b < 256
  {
    if i == 0 then w / 256 * 256 + b else SetByte(w / 256, i - 1, b) * 256 + w % 256
  }

  lemma {:induction false} ByteSet(w: nat, i: nat, b: int, j: nat)
    requires 0 <= b < 256
    ensures ByteOf(SetByte(w, i, b), j) == if j == i then b else ByteOf(w, j)
  {
    var x := SetByte(w, i, b);
    if i == 0 {
      assert x / 256 == w / 256 && x % 256 == b;
    } else {
      assert x / 256 == SetByte(w / 256, i - 1, b) && x % 256 == w % 256;
      if j > 0 {
        ByteSet(w / 256, i - 1, b, j - 1);
      }
    }
  }

  lemma {:induction false} SetByteFits(w: nat, i: nat, b: int, n: nat)
    requires 0 <= b < 256 && i < n && w < Pow256(n)
    ensures SetByte(w, i, b) < Pow256(n)
  {
    if i > 0 {
      assert w / 256 < Pow256(n - 1);
      SetByteFits(w / 256, i - 1, b, n - 1);
    }
  }

  lemma Pow256Of8()
    ensures Pow256(8) == 0x1_0000_0000_0000_0000
  {
    assert Pow256(2) == 0x1_0000;
    assert Pow256(4) == 0x1_0000_0000;
    assert Pow256(6) == 0x1_0000_0000_0000;
  }

  predicate InRamByte(a: int) { PageVa(0) <= a < PageVa(PAGING_PAGES) }

  /** The byte of RAM at a kernel address. */
  function ReadByte(m: Memory, a: int): (b: int)
    requires InRamByte(a)
    ensures 0 <= b < 256
  {
    ByteOf(m[WordIndex(a)], a % 8)
  }

  /** The eight bytes of RAM from an address divisible by eight on. */
  function BytesAt(m: Memory, a: int): (s: seq<int>)
    requires InRam(a)
  {
    seq(8, i requires 0 <= i < 8 => ByteInWord(m, a, i); ReadByte(m, a + i))
  }

  lemma ByteInWord(m: Memory, a: int, i: int)
    requires InRam(a) && 0 <= i < 8
    ensures InRamByte(a + i) && ReadByte(m, a + i) == ByteOf(m[WordIndex(a)], i)
  {
    hide ByteOf;
  }

  /** They make up its word, the lowest first. */
  lemma WordOfBytes(m: Memory, a: int)
    requires InRam(a)
    ensures m[WordIndex(a)] == BytesValue(BytesAt(m, a))
  {
    hide ByteOf, BytesValue, ReadByte;
    var w, s := m[WordIndex(a)], BytesAt(m, a);
    Pow256Of8();
    WordBytes(w, 8);
    forall i | 0 <= i < 8
      ensures s[i] == ByteOf(w, i)
    {
      ByteInWord(m, a, i);
    }
    assert s == seq(8, i requires 0 <= i < 8 => ByteOf(w, i));
  }

  /** The number that bytes denote, the lowest first. */
  function BytesValue(s: seq<int>): int {
    if s == [] then 0 else s[0] + 256 * BytesValue(s[1..])
  }

  lemma {:induction false} WordBytes(w: nat, n: nat)
    requires w < Pow256(n)
    ensures BytesValue(seq(n, i requires 0 <= i < n => ByteOf(w, i))) == w
  {
    if n > 0 {
      var s := seq(n, i requires 0 <= i < n => ByteOf(w, i));
      WordBytes(w / 256, n - 1);
      assert s[1..] == seq(n - 1, i requires 0 <= i < n - 1 => ByteOf(w / 256, i));
      assert s[0] == w % 256;
    }
  }

  method StoreByte(ram: Ram, a: int, b: int)
    requires ram.Valid() && InRamByte(a) && 0 <= b < 256
    modifies ram.mem
    ensures forall x :: InRamByte(x) ==>
      ReadByte(ram.Mem(), x) == if x == a then b else ReadByte(old(ram.Mem()), x)
    ensures forall q :: IsPfn(q) && q != PageOf(a) ==> SamePage(old(ram.Mem()), ram.Mem(), q)
  {
    var n, w := WordIndex(a), ram.mem[WordIndex(a)];
    Pow256Of8();
    SetByteFits(w, a % 8, b, 8);
    ram.mem[n] := SetByte(w, a % 8, b);
    ghost var m := old(ram.Mem());
    assert ram.Mem() == m[n := SetByte(w, a % 8, b)];
    forall x | InRamByte(x)
      ensures ReadByte(ram.Mem(), x) == if x == a then b else ReadByte(m, x)
    {
      ByteSet(w, a % 8, b, x % 8);
      SameWord(a, x);
    }
    forall q, i | IsPfn(q) && q != PageOf(a) && 0 <= i < WORDS
      ensures Entry(ram.Mem(), q, i) == Entry(m, q, i)
    {
      WordPage(a);
    }
  }

  lemma SameWord(a: int, x: int)
    ensures WordIndex(a) == WordIndex(x) && a % 8 == x % 8 ==> a == x
  {
  }

  lemma WordPage(a: int)
    requires InRamByte(a)
    ensures IsPfn(PageOf(a)) && PageOf(a) * WORDS <= WordIndex(a) < PageOf(a) * WORDS + WORDS
  {
  }

  lemma PageBytesKept(m: Memory, m': Memory, a: int)
    requires InRamByte(a) && IsPfn(PageOf(a)) && SamePage(m, m', PageOf(a))
    ensures ReadByte(m', a) == ReadByte(m, a)
  {
    WordPage(a);
    var i := WordIndex(a) - PageOf(a) * WORDS;
    assert Entry(m', PageOf(a), i) == Entry(m, PageOf(a), i);
  }

  // ---------------------------------------------------------------- access through a page table

  /** The byte a user access to `va` reaches, when the access does not fault. */
  predicate Mapped(m: Memory, ttbr: int, va: int) {
    var t := Translate(m, ttbr, va);
    t.Phys? && InRamByte(Va(t.pa))
  }
  function UserByte(m: Memory, ttbr: int, va: int): int
    requires Mapped(m, ttbr, va)
  {
    ReadByte(m, Va(Translate(m, ttbr, va).pa))
  }

  /** The kernel address of user byte `va` in a tree. */
  function UserVa(nodes: map<Key, int>, va: int): int
    requires KeyOf(PageNo(va), 4) in nodes
  {
    PageVa(nodes[KeyOf(PageNo(va), 4)]) + va % 4096
  }

  ghost predicate MappedUpTo(nodes: map<Key, int>, size: nat) {
    size <= 0x1_0000_0000_0000 && forall k :: 0 <= k < size ==> KeyOf(PageNo(k), 4) in nodes
  }

  lemma UserAccess(m: Memory, nodes: map<Key, int>, va: int)
    requires Tree(m, nodes) && 0 <= va < 0x1_0000_0000_0000 && KeyOf(PageNo(va), 4) in nodes
    ensures var ttbr := PfnToPa(nodes[Key(0, 0)]);
      && Mapped(m, ttbr, va) && Va(Translate(m, ttbr, va).pa) == UserVa(nodes, va)
      && InRamByte(UserVa(nodes, va)) && PageOf(UserVa(nodes, va)) == nodes[KeyOf(PageNo(va), 4)]
  {
    hide Translate, KeyOf, PageNo;
    TreeTranslates(m, nodes, va);
    InPage(nodes[KeyOf(PageNo(va), 4)], va % 4096);
  }

  lemma InPage(p: int, o: int)
    requires IsPfn(p) && 0 <= o < 4096
    ensures InRamByte(PageVa(p) + o) && PageOf(PageVa(p) + o) == p && Va(PfnToPa(p) + o) == PageVa(p) + o
  {
  }

  /** Different user bytes are different bytes of RAM. */
  lemma UserBytesApart(nodes: map<Key, int>, x: int, y: int)
    requires forall k, j :: k in nodes && j in nodes && nodes[k] == nodes[j] ==> k == j
    requires 0 <= x < 0x1_0000_0000_0000 && 0 <= y < 0x1_0000_0000_0000
    requires KeyOf(PageNo(x), 4) in nodes && KeyOf(PageNo(y), 4) in nodes
    ensures UserVa(nodes, x) == UserVa(nodes, y) ==> x == y
  {
    var p, q := nodes[KeyOf(PageNo(x), 4)], nodes[KeyOf(PageNo(y), 4)];
    assert KeyOf(PageNo(x), 4) == Key(4, x / 4096) && KeyOf(PageNo(y), 4) == Key(4, y / 4096);
    hide KeyOf, PageNo;
    PageAndOffset(p, x % 4096, q, y % 4096);
  }

  lemma PageAndOffset(p: int, o: int, q: int, r: int)
    requires 0 <= o < 4096 && 0 <= r < 4096
    ensures PageVa(p) + o == PageVa(q) + r ==> p == q && o == r
  {
  }

  /** Writing a user page changes no table. */
  lemma TreeKeptByLeafWrite(m: Memory, m': Memory, nodes: map<Key, int>, leaf: Key)
    requires Tree(m, nodes) && leaf in nodes && leaf.level == 4
    requires forall q :: IsPfn(q) && q != nodes[leaf] ==> SamePage(m, m', q)
    ensures Tree(m', nodes)
  {
    assert forall k :: k in nodes && k.level < 4 ==> nodes[k] != nodes[leaf];
    TreeKept(m, m', nodes);
  }

  /** `size` bytes of RAM from a kernel address on. */
  ghost function RamBytes(m: Memory, src: int, size: nat): (b: seq<int>)
    requires size > 0 ==> InRamByte(src) && InRamByte(src + size - 1)
    ensures |b| == size
  {
    seq(size, k requires 0 <= k < size => ReadByte(m, src + k))
  }

  /** No page of the source is one of the tree's. */
  ghost predicate SourceApart(nodes: map<Key, int>, src: int, size: nat) {
    size > 0 ==> forall k :: k in nodes ==> !(PageOf(src) <= nodes[k] <= PageOf(src + size - 1))
  }

  /** Every page but those of the first `size` user bytes is as it was. */
  ghost predicate OnlyImageChanged(m: Memory, m': Memory, nodes: map<Key, int>, size: nat) {
    forall q :: IsPfn(q) && !IsImagePage(nodes, size, q) ==> SamePage(m, m', q)
  }
  ghost predicate IsImagePage(nodes: map<Key, int>, size: nat, q: int) {
    exists k :: 0 <= k < size && KeyOf(PageNo(k), 4) in nodes && nodes[KeyOf(PageNo(k), 4)] == q
  }

  /** The source lies in pages that were in use. */
  ghost predicate SourceInUse(src: int, size: nat, c: Counts) {
    size > 0 ==>
      && InRamByte(src) && InRamByte(src + size - 1)
      && forall q :: PageOf(src) <= q <= PageOf(src + size - 1) ==> IsPfn(q) && c[q] != 0
  }

  /** What the process finds from address 0 on. */
  ghost predicate HoldsImage(m: Memory, nodes: map<Key, int>, image: seq<int>) {
    forall k :: 0 <= k < |image| ==>
      KeyOf(PageNo(k), 4) in nodes && InRamByte(UserVa(nodes, k)) && ReadByte(m, UserVa(nodes, k)) == image[k]
  }

  /** memcpy(USER_START, src, size) with the new tables switched in: every store goes through the MMU. */
  method LoadImage(ram: Ram, ttbr: int, src: int, size: nat, ghost nodes: map<Key, int>)
    requires ram.Valid() && Tree(ram.Mem(), nodes) && ttbr == PfnToPa(nodes[Key(0, 0)])
    requires MappedUpTo(nodes, size)
    requires size > 0 ==> InRamByte(src) && InRamByte(src + size - 1)
    requires SourceApart(nodes, src, size)
    modifies ram.mem
    ensures Tree(ram.Mem(), nodes)
    ensures HoldsImage(ram.Mem(), nodes, RamBytes(old(ram.Mem()), src, size))
    ensures OnlyImageChanged(old(ram.Mem()), ram.Mem(), nodes, size)
  {
    hide Translate, SamePage, ReadByte, OnlyImageChanged, HoldsImage, KeyOf, PageNo;
    ghost var m0, image := ram.Mem(), RamBytes(ram.Mem(), src, size);
    var i := 0;
    ImageStart(m0, nodes, size);
    while i < size
      invariant 0 <= i <= size && Tree(ram.Mem(), nodes)
      invariant HoldsImage(ram.Mem(), nodes, image[..i])
      invariant OnlyImageChanged(m0, ram.Mem(), nodes, size)
    {
      ghost var m := ram.Mem();
      UserAccess(m, nodes, i);
      SourceByte(m0, m, nodes, src, size, i);
      var b := ByteOf(ram.mem[WordIndex(src + i)], (src + i) % 8);
      assert b == image[i] by { ReadIs(m, src + i); }
      var t := Translate(ram.mem[..], ttbr, i);
      StoreByte(ram, Va(t.pa), b);
      TreeKeptByLeafWrite(m, ram.Mem(), nodes, KeyOf(PageNo(i), 4));
      ImageStep(m0, m, ram.Mem(), nodes, image, i, size);
      i := i + 1;
    }
    assert image[..i] == image;
  }

  lemma ReadIs(m: Memory, a: int)
    requires InRamByte(a)
    ensures ReadByte(m, a) == ByteOf(m[WordIndex(a)], a % 8)
  {
  }

  lemma ImageStart(m: Memory, nodes: map<Key, int>, size: nat)
    ensures HoldsImage(m, nodes, []) && OnlyImageChanged(m, m, nodes, size)
  {
  }

  /** The source is still what it was. */
  lemma SourceByte(m0: Memory, m: Memory, nodes: map<Key, int>, src: int, size: nat, i: int)
    requires 0 <= i < size && InRamByte(src) && InRamByte(src + size - 1)
    requires SourceApart(nodes, src, size) && OnlyImageChanged(m0, m, nodes, size)
    ensures InRamByte(src + i) && ReadByte(m, src + i) == RamBytes(m0, src, size)[i]
  {
    WordPage(src + i);
    assert PageOf(src) <= PageOf(src + i) <= PageOf(src + size - 1);
    assert !IsImagePage(nodes, size, PageOf(src + i));
    PageBytesKept(m0, m, src + i);
  }

  lemma ImageStep(m0: Memory, m: Memory, m': Memory, nodes: map<Key, int>, image: seq<int>, i: nat, size: nat)
    requires Tree(m, nodes) && i < |image| <= 0x1_0000_0000_0000 && size == |image|
    requires HoldsImage(m, nodes, image[..i]) && OnlyImageChanged(m0, m, nodes, size)
    requires KeyOf(PageNo(i), 4) in nodes && InRamByte(UserVa(nodes, i))
    requires forall x :: InRamByte(x) ==> ReadByte(m', x) == if x == UserVa(nodes, i) then image[i] else ReadByte(m, x)
    requires forall q :: IsPfn(q) && q != PageOf(UserVa(nodes, i)) ==> SamePage(m, m', q)
    ensures HoldsImage(m', nodes, image[..i + 1]) && OnlyImageChanged(m0, m', nodes, size)
  {
    hide KeyOf, PageNo, ReadByte;
    forall k | 0 <= k < i + 1
      ensures KeyOf(PageNo(k), 4) in nodes && InRamByte(UserVa(nodes, k)) && ReadByte(m', UserVa(nodes, k)) == image[k]
    {
      if k < i {
        assert image[..i][k] == image[k];
        UserBytesApart(nodes, k, i);
      }
    }
    UserAccess(m, nodes, i);
    forall q | IsPfn(q) && !IsImagePage(nodes, size, q)
      ensures SamePage(m0, m', q)
    {
      assert nodes[KeyOf(PageNo(i), 4)] != q;
      assert SamePage(m0, m, q) && SamePage(m, m', q);
    }
  }

  /** The source bytes, while only pages nobody used have changed. */
  lemma SourceKept(m: Memory, m': Memory, c: Counts, src: int, size: nat)
    requires forall q :: IsPfn(q) && c[q] != 0 ==> SamePage(m, m', q)
    requires SourceInUse(src, size, c)
    ensures RamBytes(m', src, size) == RamBytes(m, src, size)
  {
    forall k | 0 <= k < size
      ensures RamBytes(m', src, size)[k] == RamBytes(m, src, size)[k]
    {
      assert PageOf(src) <= PageOf(src + k) <= PageOf(src + size - 1);
      PageBytesKept(m, m', src + k);
    }
  }

  /** The image is what user accesses through the table return. */
  lemma ImageIsSeen(m: Memory, nodes: map<Key, int>, image: seq<int>, k: nat)
    requires Tree(m, nodes) && HoldsImage(m, nodes, image) && k < |image| <= 0x1_0000_0000_0000
    ensures var ttbr := PfnToPa(nodes[Key(0, 0)]);
      Mapped(m, ttbr, k) && UserByte(m, ttbr, k) == image[k]
  {
    hide Translate, KeyOf, PageNo;
    UserAccess(m, nodes, k);
  }
}
