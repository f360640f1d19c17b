/** Inodes on disk and in memory (fs/minix_fs.c, get_inode of fs/fs.c). */
module Inodes {
  import opened Bytes
  import opened BlockCache
  import opened MinixFile

  const RAW_SIZE: int := 32  // sizeof(struct minix_inode), and of struct dir_entry
  const NAME_LEN: int := 30

  /** The fields of an inode, on disk and in memory. */
  datatype RawInode = RawInode(mode: int, uid: int, size: int, time: int, gid: int, nlinks: int, zones: Zones)

  function LeBytes(v: int, n: nat): (s: seq<Byte>)
    ensures |s| == n
    decreases n
  {
    if n == 0 then [] else [v % 256] + LeBytes(v / 256, n - 1)
  }

  lemma {:induction false} LeOfBytes(v: int, n: nat)
    requires 0 <= v < Pow256(n)
    ensures Le(LeBytes(v, n)) == v
    decreases n
  {
    if n > 0 {
      LeOfBytes(v / 256, n - 1);
      assert LeBytes(v, n)[1..] == LeBytes(v / 256, n - 1);
    }
  }

  lemma {:induction false} BytesOfLe(s: seq<Byte>)
    ensures LeBytes(Le(s), |s|) == s && Le(s) < Pow256(|s|)
    decreases |s|
  {
    if s != [] {
      BytesOfLe(s[1..]);
      assert s == [s[0]] + s[1..];
      assert Le(s) % 256 == s[0] && Le(s) / 256 == Le(s[1..]);
    }
  }

  /** The zones, two bytes each. */
  function ZoneBytes(z: seq<int>): (s: seq<Byte>)
    ensures |s| == 2 * |z|
  {
    if z == [] then [] else LeBytes(z[0], 2) + ZoneBytes(z[1..])
  }
  function ZonesOf(s: seq<Byte>): (z: seq<int>)
    ensures |z| == |s| / 2
  {
    if |s| < 2 then [] else [Le(s[..2])] + ZonesOf(s[2..])
  }

  /** The stores of minix_write_inode: each field is cut to its width on disk. */
  function Encode(f: RawInode): (s: seq<Byte>)
    ensures |s| == RAW_SIZE
  {
    LeBytes(f.mode, 2) + LeBytes(f.uid, 2) + LeBytes(f.size, 4) + LeBytes(f.time, 4)
    + LeBytes(f.gid, 1) + LeBytes(f.nlinks, 1) + ZoneBytes(f.zones)
  }
  function Decode(s: seq<Byte>): RawInode
    requires |s| == RAW_SIZE
  {
    RawInode(Le(s[..2]), Le(s[2..4]), Le(s[4..8]), Le(s[8..12]), Le(s[12..13]), Le(s[13..14]), ZonesOf(s[14..]))
  }

  predicate InWidth(f: RawInode) {
    && 0 <= f.mode < 0x1_0000 && 0 <= f.uid < 0x1_0000 && 0 <= f.size < 0x1_0000_0000
    && 0 <= f.time < 0x1_0000_0000 && 0 <= f.gid < 256 && 0 <= f.nlinks < 256
    && forall i :: 0 <= i < 9 ==> 0 <= f.zones[i] < 0x1_0000
  }

  lemma Widths()
    ensures Pow256(1) == 256 && Pow256(2) == 0x1_0000 && Pow256(4) == 0x1_0000_0000
  {
  }

  lemma {:induction false} ZonesBack(z: seq<int>)
    requires forall i :: 0 <= i < |z| ==> 0 <= z[i] < 0x1_0000
    ensures ZonesOf(ZoneBytes(z)) == z
  {
    if z != [] {
      Widths();
      LeOfBytes(z[0], 2);
      var s := ZoneBytes(z);
      assert s[..2] == LeBytes(z[0], 2) && s[2..] == ZoneBytes(z[1..]);
      ZonesBack(z[1..]);
    }
  }

  lemma {:induction false} ZoneBytesBack(s: seq<Byte>)
    requires |s| % 2 == 0
    ensures ZoneBytes(ZonesOf(s)) == s
  {
    if |s| >= 2 {
      BytesOfLe(s[..2]);
      ZoneBytesBack(s[2..]);
      assert s == s[..2] + s[2..];
    }
  }

  lemma EncodedPieces(f: RawInode)
    ensures var s := Encode(f);
      && s[..2] == LeBytes(f.mode, 2) && s[2..4] == LeBytes(f.uid, 2) && s[4..8] == LeBytes(f.size, 4)
      && s[8..12] == LeBytes(f.time, 4) && s[12..13] == LeBytes(f.gid, 1) && s[13..14] == LeBytes(f.nlinks, 1)
      && s[14..] == ZoneBytes(f.zones)
  {
    hide LeBytes, ZoneBytes;
  }

  /** Fields that fit are read back as they were written. */
  lemma EncodeDecodes(f: RawInode)
    requires InWidth(f)
    ensures Decode(Encode(f)) == f
  {
    hide LeBytes, Le, Encode, ZoneBytes, ZonesOf, Pow256;
    EncodedPieces(f);
    Widths();
    LeOfBytes(f.mode, 2);
    LeOfBytes(f.uid, 2);
    LeOfBytes(f.size, 4);
    LeOfBytes(f.time, 4);
    LeOfBytes(f.gid, 1);
    LeOfBytes(f.nlinks, 1);
    ZonesBack(f.zones);
  }

  lemma Pieces(s: seq<Byte>)
    requires |s| == RAW_SIZE
    ensures s == s[..2] + s[2..4] + s[4..8] + s[8..12] + s[12..13] + s[13..14] + s[14..]
  {
    assert s[..4] == s[..2] + s[2..4];
    assert s[..8] == s[..4] + s[4..8];
    assert s[..12] == s[..8] + s[8..12];
    assert s[..13] == s[..12] + s[12..13];
    assert s[..14] == s[..13] + s[13..14];
    assert s == s[..14] + s[14..];
  }

  /** Writing back what was read, with another link count, changes the link count byte alone. */
  lemma DecodeEncodes(s: seq<Byte>, nlinks: int)
    requires |s| == RAW_SIZE
    ensures Encode(Decode(s).(nlinks := nlinks)) == s[13 := nlinks % 256]
  {
    var t := s[13 := nlinks % 256];
    BytesOfLe(s[..2]);
    BytesOfLe(s[2..4]);
    BytesOfLe(s[4..8]);
    BytesOfLe(s[8..12]);
    BytesOfLe(s[12..13]);
    ZoneBytesBack(s[14..]);
    assert LeBytes(nlinks, 1) == [nlinks % 256] by { assert LeBytes(nlinks / 256, 0) == []; }
    assert t[..2] == s[..2] && t[2..4] == s[2..4] && t[4..8] == s[4..8] && t[8..12] == s[8..12];
    assert t[12..13] == s[12..13] && t[13..14] == [nlinks % 256] && t[14..] == s[14..];
    hide LeBytes, Le, ZoneBytes, ZonesOf;
    Pieces(t);
  }

  /** Byte for byte: mode, uid, size, time, gid, link count and nine zones, each low byte first. */
  lemma DecodedBytes(s: seq<Byte>)
    requires |s| == RAW_SIZE
    ensures var f := Decode(s);
      && f.mode == Pair(s, 0) && f.uid == Pair(s, 2)
      && f.size == Pair(s, 4) + 0x1_0000 * Pair(s, 6) && f.time == Pair(s, 8) + 0x1_0000 * Pair(s, 10)
      && f.gid == s[12] && f.nlinks == s[13]
      && forall i :: 0 <= i < 9 ==> f.zones[i] == Pair(s, 14 + 2 * i)
  {
    hide Le, ZonesOf;
    LePair(s, 0);
    LePair(s, 2);
    LeFour(s, 4);
    LeFour(s, 8);
    LeOne(s, 12);
    LeOne(s, 13);
    forall i | 0 <= i < 9
      ensures ZonesOf(s[14..])[i] == Pair(s, 14 + 2 * i)
    {
      ZoneIs(s[14..], i);
      assert s[14..][2 * i..2 * i + 2] == s[14 + 2 * i..14 + 2 * i + 2];
      LePair(s, 14 + 2 * i);
    }
  }

  /** Two bytes of `s` as a number. */
  function Pair(s: seq<Byte>, a: nat): int
    requires a + 2 <= |s|
  {
    s[a] + 256 * (s[a + 1] as int)
  }

  lemma LeOne(s: seq<Byte>, a: nat)
    requires a < |s|
    ensures Le(s[a..a + 1]) == s[a]
  {
    assert s[a..a + 1][1..] == [];
  }

  lemma LePair(s: seq<Byte>, a: nat)
    requires a + 2 <= |s|
    ensures Le(s[a..a + 2]) == Pair(s, a)
  {
    assert s[a..a + 2][1..] == s[a + 1..a + 2];
    LeOne(s, a + 1);
  }

  lemma LeFour(s: seq<Byte>, a: nat)
    requires a + 4 <= |s|
    ensures Le(s[a..a + 4]) == Pair(s, a) + 0x1_0000 * Pair(s, a + 2)
  {
    assert s[a..a + 4][1..] == s[a + 1..a + 4];
    assert s[a + 1..a + 4][1..] == s[a + 2..a + 4];
    LePair(s, a + 2);
  }

  lemma {:induction false} ZoneIs(s: seq<Byte>, i: nat)
    requires 2 * i + 2 <= |s|
    ensures i < |ZonesOf(s)| && ZonesOf(s)[i] == Le(s[2 * i..2 * i + 2])
  {
    hide Le, ZonesOf;
    FirstZone(s);
    if i > 0 {
      ZoneIs(s[2..], i - 1);
      assert s[2..][2 * i - 2..2 * i] == s[2 * i..2 * i + 2];
    }
  }

  lemma FirstZone(s: seq<Byte>)
    requires |s| >= 2
    ensures ZonesOf(s) == [Le(s[..2])] + ZonesOf(s[2..])
  {
  }

  // ---------------------------------------------------------------- the inode table

  datatype Operations = NoOps | FileOps | DirOps

  class MemInode {
    const iNo: nat
    var iMode: int
    var iUid: int
    var iGid: int
    var iSize: int
    var iAtime: int
    var iMtime: int
    var iCtime: int
    var iNlink: int
    var iData: Zones
    var isNew: bool
    var iCount: int
    var op: Operations

    /** get_new_inode: kmalloc leaves the other fields as they are found. */
    constructor (iNo: nat)
      ensures this.iNo == iNo && isNew && iCount == 1 && op == NoOps
    {
      this.iNo, isNew, iCount, op := iNo, true, 1, NoOps;
    }

    ghost function Fields(): RawInode
      reads this
    {
      RawInode(iMode, iUid, iSize, iMtime, iGid, iNlink, iData)
    }

    /** An inode with one reference more, and otherwise as it was. */
    twostate predicate Referenced()
      reads this
    {
      && iCount == old(iCount) + 1 && Fields() == old(Fields()) && iAtime == old(iAtime) && iCtime == old(iCtime)
      && isNew == old(isNew) && op == old(op)
    }
  }

  predicate IsDir(mode: int) { mode / 0x1000 % 16 == 4 }
  predicate IsReg(mode: int) { mode / 0x1000 % 16 == 8 }

  /** S_IFMT: the mode of sixteen bits with all but the top four cleared. */
  function FileType(mode: int): int
    requires 0 <= mode < 0x1_0000
  {
    mode - mode % 0x1000
  }

  /** 0040000 and 0100000 under the mask 0170000; no inode is both. */
  lemma TypeTests(mode: int)
    requires 0 <= mode < 0x1_0000
    ensures IsDir(mode) <==> FileType(mode) == 0x4000
    ensures IsReg(mode) <==> FileType(mode) == 0x8000
  {
  }

  class SuperBlock {
    const dev: BlockDevice
    const ninodes: int
    const imapBlocks: int
    const zmapBlocks: int
    var inodes: seq<MemInode>  // s_inodes, newest first

    constructor (dev: BlockDevice, ninodes: int, imapBlocks: int, zmapBlocks: int)
      ensures this.dev == dev && this.ninodes == ninodes && inodes == []
      ensures this.imapBlocks == imapBlocks && this.zmapBlocks == zmapBlocks
    {
      this.dev, this.ninodes, this.imapBlocks, this.zmapBlocks, inodes := dev, ninodes, imapBlocks, zmapBlocks, [];
    }

    ghost predicate Valid()
      reads dev, dev.flash, dev.buffers, dev.Objects()
    {
      dev.Coherent() && Sized()
    }

    /** The inode table is where the counts of the super block put it. */
    ghost predicate Sized() {
      && ninodes >= 0 && imapBlocks >= 0 && zmapBlocks >= 0
      && dev.tableFrom == 2 + imapBlocks + zmapBlocks && dev.tableTo == dev.tableFrom + (ninodes + 31) / 32
      && dev.tableTo * BLOCK_SZ <= dev.flash.Length
    }

    ghost function Cached(): set<object>
      reads this
    {
      set x | x in inodes :: x as object
    }

    predicate IsIno(ino: int) { 0 < ino <= ninodes }

    function RawBlock(ino: int): int { 2 + imapBlocks + zmapBlocks + (ino - 1) / 32 }
    function RawOffset(ino: int): int { (ino - 1) % 32 * RAW_SIZE }

    /** The bytes of an inode on disk. */
    ghost function Raw(d: seq<Byte>, ino: int): (s: seq<Byte>)
      requires OnDisk(d, RawBlock(ino))
      ensures |s| == RAW_SIZE
    {
      Block(d, RawBlock(ino))[RawOffset(ino)..RawOffset(ino) + RAW_SIZE]
    }

    lemma RawOnDisk(ino: int)
      requires Valid() && IsIno(ino)
      ensures OnDisk(dev.Disk(), RawBlock(ino)) && dev.InTable(RawBlock(ino))
    {
      var q := (ino - 1) / 32;
      assert q < (ninodes + 31) / 32;
      assert (RawBlock(ino) + 1) * BLOCK_SZ <= dev.tableTo * BLOCK_SZ;
    }

    function RawAddr(ino: int): int { RawBlock(ino) * BLOCK_SZ + RawOffset(ino) }

    lemma RawIs(d: seq<Byte>, ino: int)
      requires OnDisk(d, RawBlock(ino))
      ensures 0 <= RawAddr(ino) && RawAddr(ino) + RAW_SIZE <= |d|
      ensures Raw(d, ino) == d[RawAddr(ino)..RawAddr(ino) + RAW_SIZE]
    {
      SliceOfSlice(d, RawBlock(ino) * BLOCK_SZ, (RawBlock(ino) + 1) * BLOCK_SZ, RawOffset(ino),
                   RawOffset(ino) + RAW_SIZE);
    }

    /** The disk with an inode's bytes replaced. */
    ghost function WithRaw(d: seq<Byte>, ino: int, raw: seq<Byte>): (r: seq<Byte>)
      requires OnDisk(d, RawBlock(ino)) && |raw| == RAW_SIZE
      ensures |r| == |d|
    {
      Patch(d, RawAddr(ino), raw)
    }

    lemma RawReplaced(d: seq<Byte>, ino: int, raw: seq<Byte>, other: int, b: int)
      requires OnDisk(d, RawBlock(ino)) && OnDisk(d, RawBlock(other)) && OnDisk(d, b) && |raw| == RAW_SIZE
      ensures var d' := WithRaw(d, ino, raw);
        && Raw(d', ino) == raw
        && (other != ino ==> Raw(d', other) == Raw(d, other))
        && (b != RawBlock(ino) ==> Block(d', b) == Block(d, b))
        && (raw == Raw(d, ino) ==> d' == d)
    {
      var d' := WithRaw(d, ino, raw);
      RawIs(d, ino);
      RawIs(d', ino);
      RawIs(d, other);
      RawIs(d', other);
      if b != RawBlock(ino) {
        OtherBlockKept(d, RawAddr(ino), raw, RawBlock(ino), b);
      }
      hide Raw, RawBlock, RawOffset, RawAddr;
      assert d'[RawAddr(ino)..RawAddr(ino) + RAW_SIZE] == raw;
      if other != ino {
        RawApart(ino, other);
        assert d'[RawAddr(other)..RawAddr(other) + RAW_SIZE] == d[RawAddr(other)..RawAddr(other) + RAW_SIZE];
      }
      if raw == Raw(d, ino) {
        assert d' == d;
      }
    }

    /** An inode written is read back, if its fields fit; every other inode and every other block keeps its bytes. */
    lemma InodeReadBack(d: seq<Byte>, ino: int, f: RawInode, other: int, b: int)
      requires OnDisk(d, RawBlock(ino)) && OnDisk(d, RawBlock(other)) && OnDisk(d, b)
      ensures var d' := WithRaw(d, ino, Encode(f));
        && (InWidth(f) ==> Decode(Raw(d', ino)) == f)
        && (other != ino ==> Raw(d', other) == Raw(d, other))
        && (b != RawBlock(ino) ==> Block(d', b) == Block(d, b))
    {
      hide Encode, Decode, WithRaw, Raw, Block;
      RawReplaced(d, ino, Encode(f), other, b);
      if InWidth(f) {
        EncodeDecodes(f);
      }
    }

    /** The inodes lie one behind the other from the first block of the table on, 32 bytes each. */
    lemma RawPlace(d: seq<Byte>, ino: int)
      requires OnDisk(d, RawBlock(ino))
      ensures var a := (2 + imapBlocks + zmapBlocks) * 1024 + (ino - 1) * 32;
        RawAddr(ino) == a && 0 <= a && a + 32 <= |d| && Raw(d, ino) == d[a..a + 32]
    {
      RawIs(d, ino);
      hide Raw;
    }

    /** Two inodes have no byte in common. */
    lemma RawApart(i: int, j: int)
      requires i != j
      ensures RawAddr(i) + RAW_SIZE <= RawAddr(j) || RawAddr(j) + RAW_SIZE <= RawAddr(i)
    {
      assert RawAddr(i) == (2 + imapBlocks + zmapBlocks) * BLOCK_SZ + (i - 1) * RAW_SIZE;
      assert RawAddr(j) == (2 + imapBlocks + zmapBlocks) * BLOCK_SZ + (j - 1) * RAW_SIZE;
    }

    /** An inode loaded by minix_iget and written back keeps its bytes but for the link count, which is whatever
        the memory of the new inode held. */
    lemma LinkCountLost(d: seq<Byte>, ino: int, nlink: int)
      requires OnDisk(d, RawBlock(ino))
      ensures Raw(WithRaw(d, ino, Encode(Decode(Raw(d, ino)).(nlinks := nlink))), ino) == Raw(d, ino)[13 := nlink % 256]
      ensures WithRaw(d, ino, Encode(Decode(Raw(d, ino)).(nlinks := nlink))) == d
        <==> nlink % 256 == Decode(Raw(d, ino)).nlinks
    {
      var raw := Raw(d, ino);
      var raw' := raw[13 := nlink % 256];
      DecodeEncodes(raw, nlink);
      assert Decode(raw).nlinks == raw[13] by { OneByte(raw[13..14]); }
      hide Encode, Decode, WithRaw, Raw, Block, LeBytes;
      RawReplaced(d, ino, raw', ino, RawBlock(ino));
      assert raw'[13] == nlink % 256;
      if nlink % 256 == raw[13] {
        assert raw' == raw;
      }
    }

    lemma OneByte(s: seq<Byte>)
      requires |s| == 1
      ensures Le(s) == s[0]
    {
      assert s[1..] == [];
    }

    /** minix_raw_inode: always a fresh buffer. */
    method MinixRawInode(ino: nat) returns (bh: BufferHead?, off: int)
      requires Valid()
      modifies dev
      ensures Valid() && (bh == null <==> !IsIno(ino))
      ensures forall o :: o in dev.Objects() && o !in old(dev.Objects()) ==> fresh(o)
      ensures bh == null ==> dev.buffers == old(dev.buffers)
      ensures bh != null ==>
        && OnDisk(dev.Disk(), RawBlock(ino)) && dev.InTable(RawBlock(ino))
        && off == RawOffset(ino) && bh.blkNo == RawBlock(ino) && bh.data[..] == Block(dev.Disk(), RawBlock(ino))
        && fresh(bh) && fresh(bh.data) && dev.buffers == [bh] + old(dev.buffers)
    {
      off := 0;
      if ino == 0 || ino > ninodes {
        return null, 0;
      }
      RawOnDisk(ino);
      var block := 2 + imapBlocks + zmapBlocks + (ino - 1) / 32;
      bh := dev.Bread(block);
      off := (ino - 1) % 32 * RAW_SIZE;
    }

    /** minix_write_inode. */
    method MinixWriteInode(inode: MemInode)
      requires Valid()
      modifies dev, dev.flash
      ensures Valid() && forall o :: o in dev.Objects() && o !in old(dev.Objects()) ==> fresh(o)
      ensures !IsIno(inode.iNo) ==> dev.Disk() == old(dev.Disk())
      ensures IsIno(inode.iNo) ==>
        && OnDisk(old(dev.Disk()), RawBlock(inode.iNo))
        && dev.Disk() == WithRaw(old(dev.Disk()), inode.iNo, Encode(inode.Fields()))
    {
      var bh, off := MinixRawInode(inode.iNo);
      if bh == null {
        return;
      }
      ghost var d := dev.Disk();
      StoreFields(bh.data, off, inode);
      bh.dirty := true;
      WriteThrough(bh);
      PatchInBlock(d, bh.blkNo, off, Encode(inode.Fields()));
    }

    /** brelse of the newest buffer. */
    method WriteThrough(bh: BufferHead)
      requires dev.CoherentBut(bh) && bh.dirty && |dev.buffers| > 0 && dev.buffers[0] == bh && Sized()
      modifies dev, dev.flash
      ensures Valid() && dev.Disk() == Patch(old(dev.Disk()), bh.blkNo * BLOCK_SZ, bh.data[..])
      ensures dev.Objects() <= old(dev.Objects())
    {
      assert bh in dev.buffers;
      dev.Brelse(bh);
    }

    /** minix_iget; an inode number beyond the table is not handled. */
    method MinixIget(ino: nat) returns (inode: MemInode?)
      requires Valid() && (ino == 0 || IsIno(ino))
      modifies this, dev, Cached()
      ensures Valid() && dev.Disk() == old(dev.Disk())
      ensures forall o :: o in dev.Objects() && o !in old(dev.Objects()) ==> fresh(o)
      ensures inode == null <==> ino == 0
      ensures inode == null ==> inodes == old(inodes)
      ensures inode != null ==> inode in inodes && inode.iNo == ino
      ensures inode != null && inode in old(inodes) ==> inodes == old(inodes) && inode.Referenced()
      ensures forall x :: x in old(inodes) && x != inode ==> unchanged(x)
      ensures inode != null && inode !in old(inodes) ==>
        && fresh(inode) && inodes == [inode] + old(inodes) && inode.iCount == 1
        && !inode.isNew && inode.iAtime == inode.iMtime == inode.iCtime
        && (forall x :: x in old(inodes) ==> x.iNo != ino)
        && OnDisk(dev.Disk(), RawBlock(ino))
        && inode.Fields() == Decode(Raw(dev.Disk(), ino)).(nlinks := inode.iNlink)
      ensures forall x :: x in old(inodes) ==> x.Fields() == old(x.Fields())
      ensures inode != null && inode !in old(inodes) ==>
        && (inode.op.DirOps? <==> IsDir(inode.iMode)) && (inode.op.FileOps? <==> IsReg(inode.iMode))
    {
      if ino == 0 {
        return null;
      }
      var created;
      inode, created := GetInode(ino);
      if created {
        hide SuperBlock.Raw, Decode, BlockDevice.CoherentBut;
        LoadInode(inode);
      }
    }

    /** get_inode, with get_new_inode: the cached inode, or a new one at the front of the list. */
    method GetInode(ino: nat) returns (inode: MemInode, created: bool)
      requires Valid()
      modifies this, Cached()
      ensures Valid() && inode in inodes && inode.iNo == ino
      ensures !created ==> inode in old(inodes) && inodes == old(inodes) && inode.Referenced()
      ensures forall x :: x in old(inodes) && x != inode ==> unchanged(x)
      ensures created ==>
        && fresh(inode) && inodes == [inode] + old(inodes) && inode.iCount == 1 && inode.isNew
        && (forall x :: x in old(inodes) ==> x.iNo != ino)
      ensures forall x :: x in old(inodes) ==> x.Fields() == old(x.Fields())
    {
      var i := 0;
      while i < |inodes|
        invariant 0 <= i <= |inodes| && forall j :: 0 <= j < i ==> inodes[j].iNo != ino
      {
        if inodes[i].iNo == ino {
          inode := inodes[i];
          assert inode in inodes;
          inode.iCount := inode.iCount + 1;
          return inode, false;
        }
        i := i + 1;
      }
      inode := new MemInode(ino);
      inodes := [inode] + inodes;
      created := true;
    }

    /** What minix_iget does with a new inode. */
    method LoadInode(inode: MemInode)
      requires Valid() && IsIno(inode.iNo)
      modifies dev, inode
      ensures Valid() && dev.Disk() == old(dev.Disk())
      ensures forall o :: o in dev.Objects() && o !in old(dev.Objects()) ==> fresh(o)
      ensures OnDisk(dev.Disk(), RawBlock(inode.iNo))
      ensures inode.Fields() == Decode(Raw(dev.Disk(), inode.iNo)).(nlinks := old(inode.iNlink))
      ensures (inode.op.DirOps? <==> IsDir(inode.iMode)) && (inode.op.FileOps? <==> IsReg(inode.iMode))
      ensures inode.iCount == old(inode.iCount) && !inode.isNew && inode.iNlink == old(inode.iNlink)
      ensures inode.iAtime == inode.iMtime == inode.iCtime
    {
      hide Decode;
      var bh, off := MinixRawInode(inode.iNo);
      LoadFields(bh.data, off, inode);
      inode.op := if IsDir(inode.iMode) then DirOps else if IsReg(inode.iMode) then FileOps else NoOps;
      inode.isNew := false;
      assert bh.data[..][off..off + RAW_SIZE] == Raw(dev.Disk(), inode.iNo);
    }
  }

  lemma SliceOfSlice(d: seq<Byte>, a: nat, b: nat, o: nat, e: nat)
    requires a <= b <= |d| && o <= e <= b - a
    ensures d[a..b][o..e] == d[a + o..a + e]
  {
    var l, r := d[a..b][o..e], d[a + o..a + e];
    assert |l| == |r| && forall k :: 0 <= k < |l| ==> l[k] == r[k];
  }

  method StoreLe(data: array<Byte>, at: nat, v: int, n: nat)
    requires at + n <= data.Length
    modifies data
    ensures data[..] == Patch(old(data[..]), at, LeBytes(v, n))
  {
    var i, w := 0, v;
    while i < n
      invariant 0 <= i <= n
      invariant data[..] == old(data[..at]) + data[at..at + i] + old(data[at + i..])
      invariant data[at..at + i] + LeBytes(w, n - i) == LeBytes(v, n)
    {
      ghost var done := data[at..at + i];
      data[at + i] := w % 256;
      assert data[at..at + i + 1] == done + [w % 256];
      assert done + LeBytes(w, n - i) == done + [w % 256] + LeBytes(w / 256, n - i - 1);
      w := w / 256;
      i := i + 1;
    }
    assert data[at..at + n] + LeBytes(w, 0) == data[at..at + n];
  }

  /** The stores of minix_write_inode into the buffer. */
  method StoreFields(data: array<Byte>, off: nat, inode: MemInode)
    requires off + RAW_SIZE <= data.Length
    modifies data
    ensures data[..] == Patch(old(data[..]), off, Encode(inode.Fields()))
  {
    ghost var d := data[..];
    StoreHead(data, off, inode);
    StoreZones(data, off + 14, inode.iData);
    ghost var f := inode.Fields();
    PatchTwice(d, off, LeBytes(f.mode, 2) + LeBytes(f.uid, 2) + LeBytes(f.size, 4) + LeBytes(f.time, 4)
                       + LeBytes(f.gid, 1) + LeBytes(f.nlinks, 1), ZoneBytes(f.zones));
  }

  lemma PatchTwice(d: seq<Byte>, at: nat, s: seq<Byte>, t: seq<Byte>)
    requires at + |s| + |t| <= |d|
    ensures Patch(Patch(d, at, s), at + |s|, t) == Patch(d, at, s + t)
  {
  }

  method StoreHead(data: array<Byte>, off: nat, inode: MemInode)
    requires off + 14 <= data.Length
    modifies data
    ensures data[..] == Patch(old(data[..]), off,
                          LeBytes(inode.iMode, 2) + LeBytes(inode.iUid, 2) + LeBytes(inode.iSize, 4)
                          + LeBytes(inode.iMtime, 4) + LeBytes(inode.iGid, 1) + LeBytes(inode.iNlink, 1))
  {
    hide LeBytes, Patch;
    ghost var d := data[..];
    StoreLe(data, off, inode.iMode, 2);
    StoreLe(data, off + 2, inode.iUid, 2);
    StoreLe(data, off + 12, inode.iGid, 1);
    StoreLe(data, off + 13, inode.iNlink, 1);
    StoreLe(data, off + 4, inode.iSize, 4);
    StoreLe(data, off + 8, inode.iMtime, 4);
    HeadPatched(d, off, LeBytes(inode.iMode, 2), LeBytes(inode.iUid, 2), LeBytes(inode.iSize, 4),
                LeBytes(inode.iMtime, 4), LeBytes(inode.iGid, 1), LeBytes(inode.iNlink, 1));
  }

  lemma HeadPatched(d: seq<Byte>, off: nat, a: seq<Byte>, b: seq<Byte>, c: seq<Byte>, e: seq<Byte>, f: seq<Byte>,
                    g: seq<Byte>)
    requires off + 14 <= |d| && |a| == |b| == 2 && |c| == |e| == 4 && |f| == |g| == 1
    ensures Patch(Patch(Patch(Patch(Patch(Patch(d, off, a), off + 2, b), off + 12, f), off + 13, g), off + 4, c),
                  off + 8, e)
         == Patch(d, off, a + b + c + e + f + g)
  {
    hide Patch;
  }

  method StoreZones(data: array<Byte>, at: nat, zones: Zones)
    requires at + 18 <= data.Length
    modifies data
    ensures data[..] == Patch(old(data[..]), at, ZoneBytes(zones))
  {
    ghost var d := data[..];
    var i := 0;
    assert ZoneBytes(zones[..0]) == [];
    assert d == Patch(d, at, []);
    hide Patch, ZoneBytes, LeBytes;
    while i < 9
      invariant 0 <= i <= 9
      invariant data[..] == Patch(d, at, ZoneBytes(zones[..i]))
    {
      ZoneBytesSnoc(zones[..i], zones[i]);
      assert zones[..i + 1] == zones[..i] + [zones[i]];
      StoreLe(data, at + 2 * i, zones[i], 2);
      PatchTwice(d, at, ZoneBytes(zones[..i]), LeBytes(zones[i], 2));
      i := i + 1;
    }
    assert zones[..9] == zones;
  }

  lemma {:induction false} ZoneBytesSnoc(z: seq<int>, v: int)
    ensures ZoneBytes(z + [v]) == ZoneBytes(z) + LeBytes(v, 2)
  {
    if z == [] {
      assert ZoneBytes([v][1..]) == [];
    } else {
      assert (z + [v])[1..] == z[1..] + [v];
      ZoneBytesSnoc(z[1..], v);
    }
  }

  /** The loads of minix_iget; i_nlink is not among them. */
  method LoadFields(data: array<Byte>, off: nat, inode: MemInode)
    requires off + RAW_SIZE <= data.Length
    modifies inode
    ensures inode.Fields() == Decode(data[..][off..off + RAW_SIZE]).(nlinks := old(inode.iNlink))
    ensures inode.isNew == old(inode.isNew) && inode.iCount == old(inode.iCount) && inode.iNlink == old(inode.iNlink)
    ensures inode.iAtime == inode.iMtime == inode.iCtime
  {
    var raw := data[off..off + RAW_SIZE];
    assert raw == data[..][off..off + RAW_SIZE];
    inode.iData := ZonesOf(raw[14..]);
    inode.iMode := Le(raw[..2]);
    inode.iUid := Le(raw[2..4]);
    inode.iGid := Le(raw[12..13]);
    inode.iSize := Le(raw[4..8]);
    inode.iAtime := Le(raw[8..12]);
    inode.iCtime := Le(raw[8..12]);
    inode.iMtime := Le(raw[8..12]);
  }
}
