/** Blocks on disk and the list of buffers over them (fs/fs.c). The device is a flat array of bytes. */
module BlockCache {
  import opened Bytes

  const BLOCK_SZ: int := 1024

  ghost predicate OnDisk(d: seq<Byte>, b: int) { 0 <= b && (b + 1) * BLOCK_SZ <= |d| }

  ghost function Block(d: seq<Byte>, b: int): (s: seq<Byte>)
    requires OnDisk(d, b)
    ensures |s| == BLOCK_SZ
  {
    d[b * BLOCK_SZ..(b + 1) * BLOCK_SZ]
  }

  /** `d` with the bytes from `at` on replaced by `s`. */
  ghost function Patch(d: seq<Byte>, at: int, s: seq<Byte>): (r: seq<Byte>)
    requires 0 <= at && at + |s| <= |d|
    ensures |r| == |d|
    ensures forall k :: 0 <= k < |d| ==> r[k] == if at <= k < at + |s| then s[k - at] else d[k]
  {
    d[..at] + s + d[at + |s|..]
  }

  /** Writing inside one block leaves the others alone. */
  lemma OtherBlockKept(d: seq<Byte>, at: int, s: seq<Byte>, b: int, c: int)
    requires OnDisk(d, b) && OnDisk(d, c) && b != c
    requires b * BLOCK_SZ <= at && at + |s| <= (b + 1) * BLOCK_SZ
    ensures Block(Patch(d, at, s), c) == Block(d, c)
  {
    forall k | 0 <= k < BLOCK_SZ
      ensures Block(Patch(d, at, s), c)[k] == Block(d, c)[k]
    {
    }
  }

  /** Replacing part of a block is replacing part of the disk. */
  lemma PatchInBlock(d: seq<Byte>, b: int, off: nat, s: seq<Byte>)
    requires OnDisk(d, b) && off + |s| <= BLOCK_SZ
    ensures Patch(d, b * BLOCK_SZ, Patch(Block(d, b), off, s)) == Patch(d, b * BLOCK_SZ + off, s)
  {
  }

  class BufferHead {
    const data: array<Byte>
    const blkNo: int
    var dirty: bool

    constructor (blkNo: int)
      ensures this.blkNo == blkNo && data.Length == BLOCK_SZ && fresh(data)
    {
      this.blkNo, dirty := blkNo, false;
      data := new Byte[BLOCK_SZ](_ => 0);
    }
  }

  class BlockDevice {
    const flash: array<Byte>
    const tableFrom: int  // the blocks of the inode table, which are read with bread
    const tableTo: int
    var buffers: seq<BufferHead>  // bh_head, newest first

    constructor (flash: array<Byte>, tableFrom: int, tableTo: int)
      ensures this.flash == flash && this.tableFrom == tableFrom && this.tableTo == tableTo
      ensures buffers == [] && Coherent()
    {
      this.flash, this.tableFrom, this.tableTo, buffers := flash, tableFrom, tableTo, [];
    }

    ghost function Disk(): seq<Byte>
      reads flash
    {
      flash[..]
    }

    predicate InTable(b: int) { tableFrom <= b < tableTo }

    /** The buffers and their data. */
    ghost function Objects(): set<object>
      reads this
    {
      (set bh | bh in buffers :: bh as object) + (set bh | bh in buffers :: bh.data as object)
    }

    lemma InObjects(bh: BufferHead)
      requires bh in buffers
      ensures bh in Objects() && bh.data in Objects()
    {
    }

    ghost predicate Shape(s: seq<BufferHead>) {
      && (forall i :: 0 <= i < |s| ==>
            && s[i].data.Length == BLOCK_SZ && s[i].data != flash
            && 0 <= s[i].blkNo && (s[i].blkNo + 1) * BLOCK_SZ <= flash.Length)
      && (forall i, j :: 0 <= i < j < |s| ==>
            && s[i] != s[j] && s[i].data != s[j].data
            && (s[i].blkNo == s[j].blkNo ==> InTable(s[i].blkNo)))
    }

    lemma ShapeWithout(s: seq<BufferHead>, k: nat)
      requires Shape(s) && k < |s|
      ensures var r := s[..k] + s[k + 1..];
        Shape(r) && (forall b :: b in r <==> b in s && b != s[k])
    {
      var r := s[..k] + s[k + 1..];
      assert s == s[..k] + [s[k]] + s[k + 1..];
      assert forall j :: 0 <= j < |r| ==> r[j] == s[if j < k then j else j + 1];
    }

    /** A clean buffer equals its block, unless that belongs to the inode table. */
    ghost predicate Current(bh: BufferHead)
      requires 0 <= bh.blkNo && (bh.blkNo + 1) * BLOCK_SZ <= flash.Length
      reads flash, bh, bh.data
    {
      !bh.dirty && (!InTable(bh.blkNo) ==> bh.data[..] == Block(Disk(), bh.blkNo))
    }

    ghost predicate CoherentBut(x: BufferHead?)
      reads this, flash, buffers, Objects()
    {
      Shape(buffers) && forall i :: 0 <= i < |buffers| && buffers[i] != x ==>
        (InObjects(buffers[i]); Current(buffers[i]))
    }

    /** Outside the inode table a block has at most one buffer, and every buffer is clean and equals its block. */
    ghost predicate Coherent()
      reads this, flash, buffers, Objects()
    {
      CoherentBut(null)
    }

    /** pflash_read. */
    method PflashRead(sect: int, bh: BufferHead)
      requires bh.data.Length == BLOCK_SZ && OnDisk(Disk(), sect) && bh.data != flash
      modifies bh.data
      ensures bh.data[..] == Block(Disk(), sect)
    {
      var i := 0;
      while i < BLOCK_SZ
        invariant 0 <= i <= BLOCK_SZ
        invariant forall k :: 0 <= k < i ==> bh.data[k] == flash[sect * BLOCK_SZ + k]
      {
        bh.data[i] := flash[sect * BLOCK_SZ + i];
        i := i + 1;
      }
    }

    /** pflash_write, a byte at a time. */
    method PflashWrite(sect: int, bh: BufferHead)
      requires bh.data.Length == BLOCK_SZ && OnDisk(Disk(), sect) && bh.data != flash
      modifies flash
      ensures Disk() == Patch(old(Disk()), sect * BLOCK_SZ, bh.data[..])
    {
      var base := sect * BLOCK_SZ;
      var i := 0;
      while i < BLOCK_SZ
        invariant 0 <= i <= BLOCK_SZ
        invariant forall k :: 0 <= k < flash.Length ==>
          flash[k] == if base <= k < base + i then bh.data[k - base] else old(flash[k])
      {
        flash[base + i] := bh.data[i];
        i := i + 1;
      }
    }

    /** bread: a new buffer at the front of the list, whether the block has one or not. */
    method Bread(blkNo: int) returns (bh: BufferHead)
      requires Coherent() && OnDisk(Disk(), blkNo)
      requires InTable(blkNo) || forall i :: 0 <= i < |buffers| ==> buffers[i].blkNo != blkNo
      modifies this
      ensures Coherent() && buffers == [bh] + old(buffers)
      ensures fresh(bh) && fresh(bh.data) && bh.blkNo == blkNo && bh.data[..] == Block(Disk(), blkNo) && !bh.dirty
    {
      bh := new BufferHead(blkNo);
      PflashRead(blkNo, bh);
      bh.dirty := false;
      ghost var before := buffers;
      buffers := [bh] + buffers;
      forall i | 0 <= i < |buffers|
        ensures Current(buffers[i])
      {
        if i > 0 {
          assert buffers[i] == before[i - 1];
        }
      }
    }

    /** get_blk. */
    method GetBlk(blkNo: int) returns (bh: BufferHead)
      requires Coherent() && OnDisk(Disk(), blkNo)
      modifies this
      ensures Coherent() && bh in buffers && bh.blkNo == blkNo
      ensures buffers == old(buffers) || (buffers == [bh] + old(buffers) && fresh(bh) && fresh(bh.data))
      ensures forall o :: o in Objects() && o !in old(Objects()) ==> fresh(o)
      ensures !InTable(blkNo) ==> bh.data[..] == Block(Disk(), blkNo)
    {
      var i := 0;
      while i < |buffers|
        invariant 0 <= i <= |buffers| && forall j :: 0 <= j < i ==> buffers[j].blkNo != blkNo
      {
        if buffers[i].blkNo == blkNo {
          assert Current(buffers[i]);
          return buffers[i];
        }
        i := i + 1;
      }
      bh := Bread(blkNo);
    }

    /** brelse: a dirty buffer is written back, and the buffer leaves the list. */
    method Brelse(bh: BufferHead)
      requires CoherentBut(bh) && bh in buffers
      modifies this, flash
      ensures Coherent()
      ensures Disk() == if bh.dirty then Patch(old(Disk()), bh.blkNo * BLOCK_SZ, bh.data[..]) else old(Disk())
      ensures forall b :: b in buffers <==> b in old(buffers) && b != bh
    {
      WriteBack(bh);
      ListDel(bh);
    }

    method WriteBack(bh: BufferHead)
      requires CoherentBut(bh) && bh in buffers
      modifies flash
      ensures CoherentBut(bh)
      ensures Disk() == if bh.dirty then Patch(old(Disk()), bh.blkNo * BLOCK_SZ, bh.data[..]) else old(Disk())
    {
      if bh.dirty {
        ghost var d := Disk();
        PflashWrite(bh.blkNo, bh);
        hide Patch, Block;
        forall j | 0 <= j < |buffers| && buffers[j] != bh
          ensures Current(buffers[j])
        {
          ghost var b := buffers[j];
          assert old(Current(b));
          if !InTable(b.blkNo) {
            assert b.blkNo != bh.blkNo;
            OtherBlockKept(d, bh.blkNo * BLOCK_SZ, bh.data[..], bh.blkNo, b.blkNo);
          }
        }
      }
    }

    method ListDel(bh: BufferHead)
      requires CoherentBut(bh) && bh in buffers
      modifies this
      ensures Coherent() && forall b :: b in buffers <==> b in old(buffers) && b != bh
    {
      hide Current;
      ghost var i :| 0 <= i < |buffers| && buffers[i] == bh;
      var k := 0;
      while buffers[k] != bh
        invariant 0 <= k <= i
        decreases i - k
      {
        k := k + 1;
      }
      ghost var before := buffers;
      ShapeWithout(buffers, k);
      buffers := buffers[..k] + buffers[k + 1..];
      hide Shape;
      forall j | 0 <= j < |buffers|
        ensures Current(buffers[j])
      {
        assert buffers[j] in before && buffers[j] in buffers;
      }
    }
  }
}
