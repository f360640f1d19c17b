/** Looking up a name in a directory (minix_lookup of fs/minix_fs.c). */
module Directories {
  import opened Bytes
  import opened BlockCache
  import opened MinixFile
  import opened Inodes

  const DIR_PER_BLK: int := 32

  /** The characters of a C string, without the NUL. */
  predicate IsText(s: seq<Byte>) { forall i :: 0 <= i < |s| ==> s[i] != 0 }

  function NameAt(i: int): int { i * RAW_SIZE + 2 }

  /** strcmp(name, de->name) == 0 for entry `i`: it looks for the NUL behind the name, and for a name of thirty
      characters that is the first byte of the next entry. */
  predicate Matches(blk: seq<Byte>, i: nat, name: seq<Byte>)
    requires |blk| == BLOCK_SZ && i < DIR_PER_BLK
  {
    var a := NameAt(i);
    a + |name| < BLOCK_SZ && blk[a..a + |name|] == name && blk[a + |name|] == 0
  }

  /** strcmp stays inside the block. */
  predicate Comparable(blk: seq<Byte>, name: seq<Byte>)
    requires |blk| == BLOCK_SZ && |name| <= NAME_LEN
  {
    |name| == NAME_LEN ==> blk[NameAt(31)..BLOCK_SZ] != name
  }

  function FirstMatch(blk: seq<Byte>, name: seq<Byte>, i: nat): (k: nat)
    requires |blk| == BLOCK_SZ && i <= DIR_PER_BLK
    ensures i <= k <= DIR_PER_BLK
    ensures k < DIR_PER_BLK ==> Matches(blk, k, name)
    ensures forall j :: i <= j < k ==> !Matches(blk, j, name)
    decreases DIR_PER_BLK - i
  {
    if i == DIR_PER_BLK || Matches(blk, i, name) then i else FirstMatch(blk, name, i + 1)
  }

  function EntryIno(blk: seq<Byte>, i: nat): nat
    requires |blk| == BLOCK_SZ && i < DIR_PER_BLK
  {
    Le(blk[i * RAW_SIZE..i * RAW_SIZE + 2])
  }

  /** The name an entry stores: up to the first NUL of its thirty bytes. */
  function Stored(blk: seq<Byte>, a: nat, n: nat): (s: seq<Byte>)
    requires a + n <= |blk|
    ensures |s| <= n && IsText(s) && s == blk[a..a + |s|]
    ensures |s| < n ==> blk[a + |s|] == 0
    decreases n
  {
    if n == 0 || blk[a] == 0 then [] else [blk[a]] + Stored(blk, a + 1, n - 1)
  }

  /** A name of fewer than thirty characters matches the entry that stores it; one of thirty does so only if
      the inode number of the next entry has a zero low byte. */
  lemma MatchesIff(blk: seq<Byte>, i: nat, name: seq<Byte>)
    requires |blk| == BLOCK_SZ && i < DIR_PER_BLK && IsText(name) && |name| <= NAME_LEN
    ensures Matches(blk, i, name) <==>
      && Stored(blk, NameAt(i), NAME_LEN) == name
      && (|name| == NAME_LEN ==> i + 1 < DIR_PER_BLK && blk[(i + 1) * RAW_SIZE] == 0)
  {
    if Matches(blk, i, name) {
      MatchStores(blk, i, name);
    }
    if Stored(blk, NameAt(i), NAME_LEN) == name
       && (|name| == NAME_LEN ==> i + 1 < DIR_PER_BLK && blk[(i + 1) * RAW_SIZE] == 0)
    {
      StoredMatches(blk, i, name);
    }
  }

  lemma MatchStores(blk: seq<Byte>, i: nat, name: seq<Byte>)
    requires |blk| == BLOCK_SZ && i < DIR_PER_BLK && IsText(name) && |name| <= NAME_LEN && Matches(blk, i, name)
    ensures Stored(blk, NameAt(i), NAME_LEN) == name
    ensures |name| == NAME_LEN ==> i + 1 < DIR_PER_BLK && blk[(i + 1) * RAW_SIZE] == 0
  {
    hide Stored;
    StoredIs(blk, NameAt(i), NAME_LEN, name);
  }

  lemma StoredMatches(blk: seq<Byte>, i: nat, name: seq<Byte>)
    requires |blk| == BLOCK_SZ && i < DIR_PER_BLK && IsText(name) && Stored(blk, NameAt(i), NAME_LEN) == name
    requires |name| == NAME_LEN ==> i + 1 < DIR_PER_BLK && blk[(i + 1) * RAW_SIZE] == 0
    ensures Matches(blk, i, name)
  {
    var s := Stored(blk, NameAt(i), NAME_LEN);
    hide Stored;
  }

  lemma {:induction false} StoredIs(blk: seq<Byte>, a: nat, n: nat, name: seq<Byte>)
    requires a + n <= |blk| && |name| <= n && IsText(name) && blk[a..a + |name|] == name
    requires |name| < n ==> blk[a + |name|] == 0
    ensures Stored(blk, a, n) == name
    decreases n
  {
    if name != [] {
      assert blk[a] == blk[a..a + |name|][0] == name[0];
      assert blk[a + 1..a + |name|] == name[1..];
      StoredIs(blk, a + 1, n - 1, name[1..]);
    }
  }

  datatype Found = Missing | Entry(ino: nat)

  /** The search, block by block as far as i_size. */
  ghost function LookUp(d: seq<Byte>, z: Zones, size: int, name: seq<Byte>, n: nat): Found
    decreases size - n * BLOCK_SZ
  {
    if n * BLOCK_SZ >= size then Missing else
    match Locate(d, z, n)
    case At(b) =>
      if !OnDisk(d, b) then Missing else
      var k := FirstMatch(Block(d, b), name, 0);
      if k < DIR_PER_BLK then Entry(EntryIno(Block(d, b), k)) else LookUp(d, z, size, name, n + 1)
    case _ => Missing
  }

  /** The entry that minix_lookup goes for. */
  ghost function Result(d: seq<Byte>, dir: RawInode, name: seq<Byte>): Found {
    if IsDir(dir.mode) && |name| <= NAME_LEN then
      var f := LookUp(d, dir.zones, dir.size, name, 0);
      if f == Entry(0) then Missing else f
    else Missing
  }

  // ---------------------------------------------------------------- what a directory holds

  /** The blocks of the directory are on disk. */
  ghost predicate AllOnDisk(d: seq<Byte>, z: Zones, size: int) {
    forall n: nat :: n * BLOCK_SZ < size ==> Locate(d, z, n).At?
  }

  /** The block with entry `e` of the directory, in which it is number e % 32. */
  ghost function BlockOf(d: seq<Byte>, z: Zones, e: nat): (s: seq<Byte>)
    requires Locate(d, z, e / DIR_PER_BLK).At?
    ensures |s| == BLOCK_SZ
  {
    Block(d, Locate(d, z, e / DIR_PER_BLK).b)
  }

  ghost predicate Stores(d: seq<Byte>, z: Zones, e: nat, name: seq<Byte>) {
    && Locate(d, z, e / DIR_PER_BLK).At?
    && Stored(BlockOf(d, z, e), NameAt(e % DIR_PER_BLK), NAME_LEN) == name
  }

  /** The entries in front of the end of the directory, from block `n` on. */
  predicate InDirectory(size: int, n: nat, e: nat) { n <= e / DIR_PER_BLK && e / DIR_PER_BLK * BLOCK_SZ < size }

  ghost predicate IsFirst(d: seq<Byte>, z: Zones, size: int, name: seq<Byte>, n: nat, e: nat) {
    && InDirectory(size, n, e) && Stores(d, z, e, name)
    && forall f: nat :: f < e && InDirectory(size, n, f) ==> !Stores(d, z, f, name)
  }

  /** The inode number of an entry: its first two bytes, low byte first. */
  ghost function NumberOf(d: seq<Byte>, z: Zones, e: nat): int
    requires Locate(d, z, e / DIR_PER_BLK).At?
  {
    var blk, a := BlockOf(d, z, e), 32 * (e % DIR_PER_BLK);
    blk[a] + 256 * (blk[a + 1] as int)
  }

  lemma EntryNumber(blk: seq<Byte>, i: nat)
    requires |blk| == BLOCK_SZ && i < DIR_PER_BLK
    ensures EntryIno(blk, i) == blk[32 * i] + 256 * (blk[32 * i + 1] as int)
  {
    LePair(blk, 32 * i);
  }

  /** The outcome of the search, for a name of fewer than thirty characters: the number of the first entry that stores
      it, and nothing when there is none. */
  ghost predicate IsOutcome(d: seq<Byte>, z: Zones, size: int, name: seq<Byte>, n: nat, r: Found) {
    match r
    case Missing => forall e: nat :: InDirectory(size, n, e) ==> !Stores(d, z, e, name)
    case Entry(ino) => exists e: nat :: IsFirst(d, z, size, name, n, e) && ino == NumberOf(d, z, e)
  }

  lemma {:induction false} LookUpIs(d: seq<Byte>, z: Zones, size: int, name: seq<Byte>, n: nat)
    requires AllOnDisk(d, z, size) && IsText(name) && |name| < NAME_LEN
    ensures IsOutcome(d, z, size, name, n, LookUp(d, z, size, name, n))
    decreases size - n * BLOCK_SZ
  {
    hide LookUp, Locate, FirstMatch, Matches, Stored, Block, EntryIno;
    LookUpBlock(d, z, size, name, n);
    if n * BLOCK_SZ < size {
      var blk := Block(d, Locate(d, z, n).b);
      var k := FirstMatch(blk, name, 0);
      NoneBefore(d, z, name, n);
      if k < DIR_PER_BLK {
        var e := DIR_PER_BLK * n + k;
        EntryNumber(blk, k);
        assert IsFirst(d, z, size, name, n, e);
      } else {
        LookUpIs(d, z, size, name, n + 1);
        OutcomeBefore(d, z, size, name, n, LookUp(d, z, size, name, n + 1));
      }
    }
  }

  lemma LookUpBlock(d: seq<Byte>, z: Zones, size: int, name: seq<Byte>, n: nat)
    requires AllOnDisk(d, z, size)
    ensures n * BLOCK_SZ >= size ==> LookUp(d, z, size, name, n) == Missing
    ensures n * BLOCK_SZ < size ==>
      && Locate(d, z, n).At? && OnDisk(d, Locate(d, z, n).b)
      && var blk := Block(d, Locate(d, z, n).b);
         var k := FirstMatch(blk, name, 0);
         LookUp(d, z, size, name, n)
           == if k < DIR_PER_BLK then Entry(EntryIno(blk, k)) else LookUp(d, z, size, name, n + 1)
  {
  }

  /** Of a block, the entries in front of the first match do not store the name, and that one does. */
  lemma NoneBefore(d: seq<Byte>, z: Zones, name: seq<Byte>, n: nat)
    requires Locate(d, z, n).At? && OnDisk(d, Locate(d, z, n).b) && IsText(name) && |name| < NAME_LEN
    ensures var k := FirstMatch(Block(d, Locate(d, z, n).b), name, 0);
      && (forall e: nat :: e / DIR_PER_BLK == n && e % DIR_PER_BLK < k ==> !Stores(d, z, e, name))
      && (forall e: nat :: e / DIR_PER_BLK == n && e % DIR_PER_BLK == k ==> Stores(d, z, e, name))
  {
    var blk := Block(d, Locate(d, z, n).b);
    hide Locate, FirstMatch, Matches, Stored, Block;
    forall e: nat | e / DIR_PER_BLK == n
      ensures Stores(d, z, e, name) <==> Matches(blk, e % DIR_PER_BLK, name)
    {
      MatchesIff(blk, e % DIR_PER_BLK, name);
    }
  }

  lemma OutcomeBefore(d: seq<Byte>, z: Zones, size: int, name: seq<Byte>, n: nat, r: Found)
    requires IsOutcome(d, z, size, name, n + 1, r)
    requires forall e: nat :: e / DIR_PER_BLK == n && e % DIR_PER_BLK < DIR_PER_BLK ==> !Stores(d, z, e, name)
    ensures IsOutcome(d, z, size, name, n, r)
  {
    hide NumberOf, Stored, Locate, BlockOf;
    assert forall e: nat :: InDirectory(size, n, e) ==> InDirectory(size, n + 1, e) || e / DIR_PER_BLK == n;
    match r
    case Missing =>
    case Entry(ino) =>
      var e: nat :| IsFirst(d, z, size, name, n + 1, e) && ino == NumberOf(d, z, e);
      assert IsFirst(d, z, size, name, n, e);
  }

  /** There is at most one first entry. */
  lemma FirstFound(d: seq<Byte>, z: Zones, size: int, name: seq<Byte>, e: nat)
    requires AllOnDisk(d, z, size) && IsText(name) && |name| < NAME_LEN && IsFirst(d, z, size, name, 0, e)
    ensures LookUp(d, z, size, name, 0) == Entry(NumberOf(d, z, e))
  {
    hide Locate, LookUp, Stored, BlockOf, NumberOf;
    LookUpIs(d, z, size, name, 0);
  }

  /** An entry as it lies on disk: the number, low byte first, and the name with zeros behind it. */
  function DirEntry(ino: nat, name: seq<Byte>): (s: seq<Byte>)
    requires ino < 0x1_0000 && |name| <= NAME_LEN
    ensures |s| == RAW_SIZE
  {
    [ino % 256, ino / 256] + name + seq(NAME_LEN - |name|, _ => 0)
  }

  ghost predicate EntryIs(d: seq<Byte>, z: Zones, e: nat, ino: nat, name: seq<Byte>)
    requires ino < 0x1_0000 && |name| <= NAME_LEN
  {
    var a := 32 * (e % DIR_PER_BLK);
    Locate(d, z, e / DIR_PER_BLK).At? && BlockOf(d, z, e)[a..a + 32] == DirEntry(ino, name)
  }

  lemma EntryHolds(blk: seq<Byte>, i: nat, ino: nat, name: seq<Byte>)
    requires |blk| == BLOCK_SZ && i < DIR_PER_BLK && ino < 0x1_0000 && IsText(name) && |name| < NAME_LEN
    requires blk[32 * i..32 * i + 32] == DirEntry(ino, name)
    ensures Stored(blk, NameAt(i), NAME_LEN) == name && blk[32 * i] + 256 * (blk[32 * i + 1] as int) == ino
  {
    hide Stored, DirEntry, IsText;
    var a := 32 * i;
    var s := blk[a..a + 32];
    EntryParts(ino, name);
    assert forall j :: 0 <= j < 32 ==> s[j] == blk[a + j];
    assert blk[a + 2..a + 2 + |name|] == s[2..2 + |name|];
    StoredIs(blk, NameAt(i), NAME_LEN, name);
  }

  lemma EntryParts(ino: nat, name: seq<Byte>)
    requires ino < 0x1_0000 && |name| < NAME_LEN
    ensures var s := DirEntry(ino, name);
      s[0] + 256 * (s[1] as int) == ino && s[2..2 + |name|] == name && s[2 + |name|] == 0
  {
  }

  /** Round trip: if an entry of the directory is the number and the name, and none in front of it stores that name,
      looking it up yields that number. */
  lemma LookUpRoundTrip(d: seq<Byte>, z: Zones, size: int, name: seq<Byte>, ino: nat, e: nat)
    requires AllOnDisk(d, z, size) && IsText(name) && |name| < NAME_LEN && ino < 0x1_0000
    requires InDirectory(size, 0, e) && EntryIs(d, z, e, ino, name)
    requires forall f: nat :: f < e ==> !Stores(d, z, f, name)
    ensures LookUp(d, z, size, name, 0) == Entry(ino)
  {
    hide Locate, Stored, DirEntry, LookUp;
    EntryHolds(BlockOf(d, z, e), e % DIR_PER_BLK, ino, name);
    FirstFound(d, z, size, name, e);
  }

  ghost predicate CanLookUp(d: seq<Byte>, lo: int, hi: int, z: Zones, size: int, name: seq<Byte>, n: nat)
    requires |name| <= NAME_LEN
    decreases size - n * BLOCK_SZ
  {
    n * BLOCK_SZ < size ==>
      && Accessible(d, lo, hi, z, n) && Locate(d, z, n).At? && OnDisk(d, Locate(d, z, n).b)
      && Comparable(Block(d, Locate(d, z, n).b), name)
      && (FirstMatch(Block(d, Locate(d, z, n).b), name, 0) == DIR_PER_BLK ==>
            CanLookUp(d, lo, hi, z, size, name, n + 1))
  }

  /** strcmp against the bytes at `a`; `name` ends in a NUL. */
  method Strcmp(name: seq<Byte>, data: array<Byte>, a: nat) returns (equal: bool)
    requires IsText(name) && a + |name| <= data.Length
    requires a + |name| == data.Length ==> data[a..] != name
    ensures equal <==> a + |name| < data.Length && data[a..a + |name|] == name && data[a + |name|] == 0
  {
    var i := 0;
    while true
      invariant 0 <= i <= |name| && data[a..a + i] == name[..i]
      decreases |name| - i
    {
      assert i == |name| ==> data[a..a + i] == name;
      assert i < |name| ==> data[a..a + |name|][i] == data[a + i];
      var c := if i < |name| then name[i] else 0;
      if c != data[a + i] {
        return false;
      }
      if data[a + i] == 0 {
        return true;
      }
      assert data[a..a + i + 1] == data[a..a + i] + [data[a + i]];
      i := i + 1;
    }
  }

  method EntryMatches(name: seq<Byte>, data: array<Byte>, k: nat) returns (equal: bool)
    requires IsText(name) && |name| <= NAME_LEN && data.Length == BLOCK_SZ && k < DIR_PER_BLK
    requires Comparable(data[..], name)
    ensures equal == Matches(data[..], k, name)
  {
    var a := NameAt(k);
    assert data[a..a + |name|] == data[..][a..a + |name|];
    assert k == 31 && |name| == NAME_LEN ==> data[a..] == data[..][a..BLOCK_SZ];
    equal := Strcmp(name, data, a);
  }

  /** The inner loop of minix_lookup. */
  method FindInBlock(name: seq<Byte>, data: array<Byte>) returns (k: nat)
    requires IsText(name) && |name| <= NAME_LEN && data.Length == BLOCK_SZ && Comparable(data[..], name)
    ensures k == FirstMatch(data[..], name, 0)
  {
    k := 0;
    ghost var blk := data[..];
    hide FirstMatch, Matches, Comparable;
    while k < DIR_PER_BLK
      invariant 0 <= k <= DIR_PER_BLK && data[..] == blk && FirstMatch(blk, name, k) == FirstMatch(blk, name, 0)
    {
      var equal := EntryMatches(name, data, k);
      MatchStep(blk, name, k);
      if equal {
        return;
      }
      k := k + 1;
    }
    NoMatch(blk, name);
  }

  lemma MatchStep(blk: seq<Byte>, name: seq<Byte>, k: nat)
    requires |blk| == BLOCK_SZ && k < DIR_PER_BLK
    ensures FirstMatch(blk, name, k) == if Matches(blk, k, name) then k else FirstMatch(blk, name, k + 1)
  {
  }

  lemma NoMatch(blk: seq<Byte>, name: seq<Byte>)
    requires |blk| == BLOCK_SZ
    ensures FirstMatch(blk, name, DIR_PER_BLK) == DIR_PER_BLK
  {
  }

  lemma LookUpStep(d: seq<Byte>, lo: int, hi: int, z: Zones, size: int, name: seq<Byte>, n: nat)
    requires |name| <= NAME_LEN && n * BLOCK_SZ < size && CanLookUp(d, lo, hi, z, size, name, n)
    ensures Accessible(d, lo, hi, z, n) && Locate(d, z, n).At? && OnDisk(d, Locate(d, z, n).b)
    ensures var blk := Block(d, Locate(d, z, n).b);
      var k := FirstMatch(blk, name, 0);
      && Comparable(blk, name)
      && (k < DIR_PER_BLK ==> LookUp(d, z, size, name, n) == Entry(EntryIno(blk, k)))
      && (k == DIR_PER_BLK ==>
           CanLookUp(d, lo, hi, z, size, name, n + 1) && LookUp(d, z, size, name, n) == LookUp(d, z, size, name, n + 1))
  {
  }

  /** The search in one block: the inode number of the entry found, if any. */
  method FindInFile(dev: BlockDevice, z: Zones, n: nat, name: seq<Byte>) returns (found: bool, ino: nat)
    requires dev.Coherent() && IsText(name) && |name| <= NAME_LEN
    requires Accessible(dev.Disk(), dev.tableFrom, dev.tableTo, z, n) && Locate(dev.Disk(), z, n).At?
    requires OnDisk(dev.Disk(), Locate(dev.Disk(), z, n).b)
      && Comparable(Block(dev.Disk(), Locate(dev.Disk(), z, n).b), name)
    modifies dev
    ensures dev.Coherent() && dev.Disk() == old(dev.Disk())
    ensures forall o :: o in dev.Objects() && o !in old(dev.Objects()) ==> fresh(o)
    ensures var blk := Block(dev.Disk(), Locate(dev.Disk(), z, n).b);
      var k := FirstMatch(blk, name, 0);
      if k < DIR_PER_BLK then found && ino == EntryIno(blk, k) else !found
  {
    hide Locate, Block, Comparable, FirstMatch, EntryIno;
    var bh := InodeGetBlk(dev, z, n * BLOCK_SZ);
    var k := FindInBlock(name, bh.data);
    found, ino := k < DIR_PER_BLK, 0;
    if found {
      ino := EntryIno(bh.data[..], k);
    }
  }

  /** The number found is that of the first entry storing the name; 0 stands for null. */
  ghost predicate InodeOfFirst(d: seq<Byte>, z: Zones, size: int, name: seq<Byte>, ino: nat) {
    AllOnDisk(d, z, size) && |name| < NAME_LEN ==>
      forall e: nat :: IsFirst(d, z, size, name, 0, e) ==> ino == NumberOf(d, z, e)
  }

  lemma FirstFoundAll(d: seq<Byte>, z: Zones, size: int, name: seq<Byte>)
    requires IsText(name)
    ensures var f := LookUp(d, z, size, name, 0);
      InodeOfFirst(d, z, size, name, if f.Missing? then 0 else f.ino)
  {
    hide Locate, LookUp, Stored, BlockOf;
    if AllOnDisk(d, z, size) && |name| < NAME_LEN {
      forall e: nat | IsFirst(d, z, size, name, 0, e)
        ensures LookUp(d, z, size, name, 0) == Entry(NumberOf(d, z, e))
      {
        FirstFound(d, z, size, name, e);
      }
    }
  }

  /** minix_lookup. */
  method MinixLookup(sb: SuperBlock, dir: MemInode, name: seq<Byte>) returns (inode: MemInode?)
    requires sb.Valid() && IsText(name)
    requires IsDir(dir.iMode) && |name| <= NAME_LEN ==>
      && CanLookUp(sb.dev.Disk(), sb.dev.tableFrom, sb.dev.tableTo, dir.iData, dir.iSize, name, 0)
      && var f := LookUp(sb.dev.Disk(), dir.iData, dir.iSize, name, 0); f.Entry? ==> f.ino == 0 || sb.IsIno(f.ino)
    modifies sb, sb.dev, sb.Cached()
    ensures sb.Valid() && sb.dev.Disk() == old(sb.dev.Disk())
    ensures forall o :: o in sb.dev.Objects() && o !in old(sb.dev.Objects()) ==> fresh(o)
    ensures var f := if IsDir(old(dir.iMode)) && |name| <= NAME_LEN
                     then LookUp(old(sb.dev.Disk()), old(dir.iData), old(dir.iSize), name, 0) else Missing;
      if f.Missing? || f.ino == 0 then inode == null else inode != null && inode.iNo == f.ino && inode in sb.inodes
    ensures inode == null ==> sb.inodes == old(sb.inodes)
    ensures inode != null && inode in old(sb.inodes) ==>
      sb.inodes == old(sb.inodes) && inode.Referenced()
    ensures forall x :: x in old(sb.inodes) && x != inode ==> unchanged(x)
    ensures inode != null && inode !in old(sb.inodes) ==>
      && fresh(inode) && sb.inodes == [inode] + old(sb.inodes) && inode.iCount == 1
      && (forall x :: x in old(sb.inodes) ==> x.iNo != inode.iNo)
      && OnDisk(sb.dev.Disk(), sb.RawBlock(inode.iNo))
      && inode.Fields() == Decode(sb.Raw(sb.dev.Disk(), inode.iNo)).(nlinks := inode.iNlink)
    ensures forall x :: x in old(sb.inodes) ==> x.Fields() == old(x.Fields())
    ensures IsDir(old(dir.iMode)) ==>
      InodeOfFirst(old(sb.dev.Disk()), old(dir.iData), old(dir.iSize), name, if inode == null then 0 else inode.iNo)
  {
    if IsDir(dir.iMode) {
      FirstFoundAll(sb.dev.Disk(), dir.iData, dir.iSize, name);
    }
    hide InodeOfFirst;
    var sz := dir.iSize;
    if !IsDir(dir.iMode) {
      return null;
    }
    if |name| > NAME_LEN {
      return null;
    }
    hide BlockDevice.CoherentBut, BlockDevice.Objects, CanLookUp, LookUp, Decode, SuperBlock.Raw;
    var found, ino := FindEntry(sb.dev, dir.iData, sz, name);
    if !found {
      return null;
    }
    inode := sb.MinixIget(ino);
  }

  /** The loop of minix_lookup over the blocks of the directory. */
  method FindEntry(dev: BlockDevice, z: Zones, sz: int, name: seq<Byte>) returns (found: bool, ino: nat)
    requires dev.Coherent() && IsText(name) && |name| <= NAME_LEN
    requires CanLookUp(dev.Disk(), dev.tableFrom, dev.tableTo, z, sz, name, 0)
    modifies dev
    ensures dev.Coherent() && dev.Disk() == old(dev.Disk())
    ensures forall o :: o in dev.Objects() && o !in old(dev.Objects()) ==> fresh(o)
    ensures LookUp(dev.Disk(), z, sz, name, 0) == if found then Entry(ino) else Missing
  {
    var n := 0;
    ghost var d, lo, hi := dev.Disk(), dev.tableFrom, dev.tableTo;
    hide BlockDevice.CoherentBut, BlockDevice.Objects, Locate, Block, Comparable, FirstMatch, CanLookUp, EntryIno;
    while n * BLOCK_SZ < sz
      invariant dev.Coherent() && dev.Disk() == d
      invariant forall o :: o in dev.Objects() && o !in old(dev.Objects()) ==> fresh(o)
      invariant CanLookUp(d, lo, hi, z, sz, name, n)
      invariant LookUp(d, z, sz, name, n) == LookUp(d, z, sz, name, 0)
      decreases sz - n * BLOCK_SZ
    {
      LookUpStep(d, lo, hi, z, sz, name, n);
      found, ino := FindInFile(dev, z, n, name);
      if found {
        return;
      }
      n := n + 1;
    }
    return false, 0;
  }
}
