/** Physical pages: the address arithmetic of include/mm.h and the page allocator of mm/mm.c.
    RAM is the 15 MB handed to the page allocator, as 64-bit words; `mem_map` is its array of counts. */
module PhysMem {
  const MEM_BASE: int := 0x4000_0000
  const LOW_MEM: int := 0x4018_0000
  const KERNEL_VA_START: int := 0xffff_0000_0000_0000
  const PAGE_SIZE: int := 4096
  const PAGING_PAGES: int := 3840
  const WORDS: int := 512

  type Word = w: int | 0 <= w < 0x1_0000_0000_0000_0000
  type Memory = m: seq<Word> | |m| == PAGING_PAGES * WORDS witness seq(PAGING_PAGES * WORDS, _ => 0)
  type Counts = c: seq<int> | |c| == PAGING_PAGES witness seq(PAGING_PAGES, _ => 0)

  // __va and __pa
  function Va(pa: int): int { pa - MEM_BASE + KERNEL_VA_START }
  function Pa(va: int): int { va - KERNEL_VA_START + MEM_BASE }

  // pfn_to_pa and pa_to_pfn; the kernel address of a page
  function PfnToPa(pfn: int): int { pfn * PAGE_SIZE + LOW_MEM }
  function PaToPfn(pa: int): int { (pa - LOW_MEM) / PAGE_SIZE }
  function PageVa(pfn: int): int { Va(PfnToPa(pfn)) }

  /** The page an address lies in. */
  function PageOf(a: int): int { (a - PageVa(0)) / 4096 }

  /** The word of RAM a kernel address selects. */
  function WordIndex(va: int): int { (va - PageVa(0)) / 8 }
  predicate InRam(va: int) {
    PageVa(0) <= va < PageVa(PAGING_PAGES) && va % 8 == 0
  }

  predicate IsPfn(p: int) { 0 <= p < PAGING_PAGES }

  /** Word `i` of page `p`. */
  function Entry(m: Memory, p: int, i: int): Word
    requires IsPfn(p) && 0 <= i < WORDS
  {
    m[p * WORDS + i]
  }

  ghost predicate SamePage(m: Memory, m': Memory, p: int)
    requires IsPfn(p)
  {
    forall i :: 0 <= i < WORDS ==> Entry(m', p, i) == Entry(m, p, i)
  }

  ghost predicate ZeroPage(m: Memory, p: int)
    requires IsPfn(p)
  {
    forall i :: 0 <= i < WORDS ==> Entry(m, p, i) == 0
  }

  /** The page alloc_page picks: it scans mem_map downwards from the top. */
  function HighestFree(c: seq<int>): (p: int)
    ensures -1 <= p < |c|
    ensures p >= 0 ==> c[p] == 0
    ensures forall j :: p < j < |c| ==> c[j] != 0
  {
    if c == [] then -1
    else if c[|c| - 1] == 0 then |c| - 1
    else HighestFree(c[..|c| - 1])
  }

  function FreePages(c: seq<int>): nat { multiset(c)[0] }

  lemma FreePagesPositive(c: seq<int>)
    requires FreePages(c) > 0
    ensures HighestFree(c) >= 0
  {
    assert 0 in multiset(c);
    assert 0 in c;
  }

  lemma TakePage(c: seq<int>, p: int)
    requires 0 <= p < |c| && c[p] == 0
    ensures FreePages(c[p := 1]) == FreePages(c) - 1
  {
  }

  class Ram {
    const mem: array<Word>
    const count: array<int>

    predicate Valid() {
      mem.Length == PAGING_PAGES * WORDS && count.Length == PAGING_PAGES
    }

    ghost function Mem(): Memory
      requires Valid()
      reads mem
    {
      mem[..]
    }

    ghost function Count(): Counts
      requires Valid()
      reads count
    {
      count[..]
    }

    constructor ()
      ensures Valid() && fresh(mem) && fresh(count)
      ensures forall p :: 0 <= p < PAGING_PAGES ==> Count()[p] == 0
    {
      mem := new Word[PAGING_PAGES * WORDS](_ => 0);
      count := new int[PAGING_PAGES](_ => 0);
    }

    /** alloc_page: -1 stands for NULL. */
    method AllocPage() returns (p: int)
      requires Valid()
      modifies count
      ensures p == HighestFree(old(Count()))
      ensures Count() == if p < 0 then old(Count()) else old(Count())[p := 1]
    {
      var i := PAGING_PAGES - 1;
      while i >= 0
        invariant -1 <= i < PAGING_PAGES
        invariant forall j :: i < j < PAGING_PAGES ==> count[j] != 0
      {
        if count[i] == 0 {
          HighestIs(count[..], i);
          count[i] := 1;
          return i;
        }
        i := i - 1;
      }
      return -1;
    }

    /** get_free_page, with memset clearing the page a word at a time. */
    method GetFreePage() returns (va: int, ghost p: int)
      requires Valid() && FreePages(Count()) > 0
      modifies mem, count
      ensures p == HighestFree(old(Count())) && IsPfn(p) && va == PageVa(p)
      ensures Count() == old(Count())[p := 1]
      ensures ZeroPage(Mem(), p)
      ensures forall q :: IsPfn(q) && q != p ==> SamePage(old(Mem()), Mem(), q)
    {
      FreePagesPositive(Count());
      var page := AllocPage();
      p := page;
      va := PageVa(page);
      var n := 0;
      while n < WORDS
        modifies mem
        invariant 0 <= n <= WORDS
        invariant forall k :: page * WORDS <= k < page * WORDS + n ==> mem[k] == 0
        invariant forall k :: 0 <= k < mem.Length && !(page * WORDS <= k < page * WORDS + n) ==> mem[k] == old(mem[k])
      {
        mem[page * WORDS + n] := 0;
        n := n + 1;
      }
    }

    /** free_page: drops one reference. */
    method FreePage(va: int)
      requires Valid() && IsPfn(PaToPfn(Pa(va)))
      modifies count
      ensures Count() == var p := PaToPfn(Pa(va)); old(Count())[p := old(Count())[p] - 1]
    {
      var p := PaToPfn(Pa(va));
      count[p] := count[p] - 1;
      assert Count() == old(Count())[p := old(Count())[p] - 1];
    }

    function Load(va: int): Word
      requires Valid() && InRam(va)
      reads mem
    {
      mem[WordIndex(va)]
    }

    method Store(va: int, w: Word)
      requires Valid() && InRam(va)
      modifies mem
      ensures Mem() == old(Mem())[WordIndex(va) := w]
    {
      mem[WordIndex(va)] := w;
    }
  }

  lemma {:induction false} HighestIs(c: seq<int>, p: int)
    requires 0 <= p < |c| && c[p] == 0
    requires forall j :: p < j < |c| ==> c[j] != 0
    ensures HighestFree(c) == p
  {
    var h := HighestFree(c);
    assert h >= p;
  }

  /** Entry i of the table page p is the word at __va(pa) + (i << 3). */
  lemma EntryAddress(p: int, i: int)
    requires IsPfn(p) && 0 <= i < WORDS
    ensures InRam(PageVa(p) + i * 8) && WordIndex(PageVa(p) + i * 8) == p * WORDS + i
  {
  }
}
