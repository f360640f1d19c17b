/** Reading and writing file contents (fs/minix_fs.c): the chunked loops over the buffer cache against a flat
    disk. The read and write operations do not look at i_size. */
module MinixFile {
  import opened Bytes
  import opened BlockCache

  const NR_DIRECT: int := 7
  const NR_PER_BLOCK: int := 512
  const BLOCK_LIMIT: int := NR_DIRECT + NR_PER_BLOCK + NR_PER_BLOCK * NR_PER_BLOCK

  /** The i_data of an inode: seven direct zones, one indirect, one double indirect. */
  type Zones = z: seq<int> | |z| == 9 witness [0, 0, 0, 0, 0, 0, 0, 0, 0]

  /** A little-endian number. */
  function Le(s: seq<Byte>): (n: int)
    ensures n >= 0
  {
    if s == [] then 0 else s[0] + 256 * Le(s[1..])
  }

  /** Where a block of a file is: on disk, beyond the largest file, or nowhere that can be accessed. */
  datatype Location = At(b: int) | TooFar | Nowhere

  ghost function OnlyOn(d: seq<Byte>, b: int): Location {
    if OnDisk(d, b) then At(b) else Nowhere
  }

  /** The eight bytes at an offset in a block, taken as a block number. */
  ghost function LoadNo(d: seq<Byte>, b: int, off: int): Location {
    if OnDisk(d, b) && 0 <= off && off + 8 <= BLOCK_SZ then OnlyOn(d, Le(Block(d, b)[off..off + 8])) else Nowhere
  }

  /** inode_get_blk: the block holding block `n` of the file. */
  ghost function Locate(d: seq<Byte>, z: Zones, n: nat): Location {
    if n < NR_DIRECT then OnlyOn(d, z[n])
    else if n < NR_DIRECT + NR_PER_BLOCK then LoadNo(d, z[7], 2 * (n - NR_DIRECT))
    else if n < BLOCK_LIMIT then LoadNo(d, z[8], 2 * (n - NR_DIRECT - NR_PER_BLOCK) / 512)
    else TooFar
  }

  /** The indirect block it looks in. */
  ghost function Indirect(z: Zones, n: nat): set<int> {
    if n < NR_DIRECT then {} else if n < NR_DIRECT + NR_PER_BLOCK then {z[7]}
    else if n < BLOCK_LIMIT then {z[8]} else {}
  }

  /** Block `n` can be got at through current buffers: it is on disk or beyond the limit, and neither it nor
      its indirect block belongs to the inode table. */
  ghost predicate Accessible(d: seq<Byte>, lo: int, hi: int, z: Zones, n: nat) {
    && !Locate(d, z, n).Nowhere?
    && (Locate(d, z, n).At? ==> !(lo <= Locate(d, z, n).b < hi))
    && (forall i :: i in Indirect(z, n) ==> !(lo <= i < hi))
  }

  function Min(a: int, b: int): int { if a < b then a else b }

  /** One block after the other: what is read before the first missing block, and whether there is none. */
  ghost function ReadSpec(d: seq<Byte>, z: Zones, pos: nat, left: nat): (r: (seq<Byte>, bool))
    ensures |r.0| <= left && (r.1 ==> |r.0| == left)
    decreases left
  {
    if left == 0 then ([], true) else
    match Locate(d, z, pos / BLOCK_SZ)
    case At(b) =>
      var nr, chars := pos % BLOCK_SZ, Min(BLOCK_SZ - pos % BLOCK_SZ, left);
      var rest := ReadSpec(d, z, pos + chars, left - chars);
      if OnDisk(d, b) then (Block(d, b)[nr..nr + chars] + rest.0, rest.1) else ([], false)
    case _ => ([], false)
  }

  ghost function WriteSpec(d: seq<Byte>, z: Zones, buf: seq<Byte>, pos: nat): (r: (seq<Byte>, bool))
    ensures |r.0| == |d|
    decreases |buf|
  {
    if buf == [] then (d, true) else
    match Locate(d, z, pos / BLOCK_SZ)
    case At(b) =>
      var nr, chars := pos % BLOCK_SZ, Min(BLOCK_SZ - pos % BLOCK_SZ, |buf|);
      if OnDisk(d, b) then WriteSpec(Patch(d, b * BLOCK_SZ + nr, buf[..chars]), z, buf[chars..], pos + chars)
      else (d, false)
    case _ => (d, false)
  }

  ghost predicate CanRead(d: seq<Byte>, lo: int, hi: int, z: Zones, pos: nat, left: nat)
    decreases left
  {
    left > 0 ==>
      && Accessible(d, lo, hi, z, pos / BLOCK_SZ)
      && var chars := Min(BLOCK_SZ - pos % BLOCK_SZ, left); CanRead(d, lo, hi, z, pos + chars, left - chars)
  }

  ghost predicate CanWrite(d: seq<Byte>, lo: int, hi: int, z: Zones, buf: seq<Byte>, pos: nat)
    decreases |buf|
  {
    buf != [] ==>
      && Accessible(d, lo, hi, z, pos / BLOCK_SZ)
      && match Locate(d, z, pos / BLOCK_SZ)
         case At(b) =>
           var chars := Min(BLOCK_SZ - pos % BLOCK_SZ, |buf|);
           OnDisk(d, b) &&
           CanWrite(Patch(d, b * BLOCK_SZ + pos % BLOCK_SZ, buf[..chars]), lo, hi, z, buf[chars..], pos + chars)
         case _ => true
  }

  // ---------------------------------------------------------------- the operations

  method Load8(dev: BlockDevice, b: int, off: int) returns (n: int)
    requires dev.Coherent() && OnDisk(dev.Disk(), b) && !dev.InTable(b) && 0 <= off && off + 8 <= BLOCK_SZ
    modifies dev
    ensures dev.Coherent() && n == Le(Block(dev.Disk(), b)[off..off + 8])
    ensures forall o :: o in dev.Objects() && o !in old(dev.Objects()) ==> fresh(o)
  {
    hide BlockDevice.CoherentBut, BlockDevice.Objects;
    var bh := dev.GetBlk(b);
    n := Le(bh.data[..][off..off + 8]);
  }

  /** inode_get_blk. */
  method InodeGetBlk(dev: BlockDevice, zones: Zones, offset: nat) returns (bh: BufferHead?)
    requires dev.Coherent() && Accessible(dev.Disk(), dev.tableFrom, dev.tableTo, zones, offset / BLOCK_SZ)
    modifies dev
    ensures dev.Coherent()
    ensures forall o :: o in dev.Objects() && o !in old(dev.Objects()) ==> fresh(o)
    ensures bh == null <==> Locate(dev.Disk(), zones, offset / BLOCK_SZ).TooFar?
    ensures bh != null ==> bh in dev.buffers && OnDisk(dev.Disk(), bh.blkNo)
    ensures bh != null ==> Locate(dev.Disk(), zones, offset / BLOCK_SZ) == At(bh.blkNo)
    ensures bh != null ==> bh.data[..] == Block(dev.Disk(), bh.blkNo)
    ensures offset / 1024 < 7 ==> bh != null && bh.blkNo == zones[offset / 1024]
  {
    hide BlockDevice.CoherentBut, BlockDevice.Objects, Block, Le;
    var blkOffset := offset / BLOCK_SZ;
    var blkNo;
    if blkOffset < 7 {
      blkNo := zones[blkOffset];
    } else if blkOffset < 7 + 512 {
      assert zones[7] in Indirect(zones, blkOffset);
      blkNo := Load8(dev, zones[7], 2 * (blkOffset - 7));
    } else if blkOffset < 7 + 512 + 512 * 512 {
      assert zones[8] in Indirect(zones, blkOffset);
      blkNo := Load8(dev, zones[8], 2 * (blkOffset - 7 - 512) / 512);
    } else {
      return null;
    }
    bh := dev.GetBlk(blkNo);
  }

  lemma ReadStep(d: seq<Byte>, lo: int, hi: int, z: Zones, pos: nat, left: nat)
    requires left > 0 && CanRead(d, lo, hi, z, pos, left)
    ensures Accessible(d, lo, hi, z, pos / BLOCK_SZ)
    ensures var nr, chars, l := pos % BLOCK_SZ, Min(BLOCK_SZ - pos % BLOCK_SZ, left), Locate(d, z, pos / BLOCK_SZ);
      && CanRead(d, lo, hi, z, pos + chars, left - chars)
      && (!l.At? ==> ReadSpec(d, z, pos, left) == ([], false))
      && (l.At? ==>
           && OnDisk(d, l.b)
           && var rest := ReadSpec(d, z, pos + chars, left - chars);
              ReadSpec(d, z, pos, left) == (Block(d, l.b)[nr..nr + chars] + rest.0, rest.1))
  {
  }

  /** One turn of the loop of minix_read takes the buffer from `b` to `b'`: `chars` bytes are copied to `at`,
      or none when the block is missing. */
  ghost predicate Turn(d: seq<Byte>, z: Zones, b: seq<Byte>, b': seq<Byte>, pos: nat, at: nat, left: nat, chars: nat)
    requires at + left <= |b|
  {
    var (bytes, ok) := ReadSpec(d, z, pos, left);
    && |b'| == |b| && chars <= left
    && if chars == 0 then bytes == [] && !ok && b' == b
       else
         && b'[..at] == b[..at] && b'[at + chars..] == b[at + chars..]
         && bytes == b'[at..at + chars] + ReadSpec(d, z, pos + chars, left - chars).0
         && ok == ReadSpec(d, z, pos + chars, left - chars).1
  }

  lemma ChunkIsTurn(d: seq<Byte>, z: Zones, b: seq<Byte>, b': seq<Byte>, blk: seq<Byte>, pos: nat, at: nat, left: nat,
                    chars: nat)
    requires 0 < chars <= left && at + left <= |b| && pos % BLOCK_SZ + chars <= |blk|
    requires b' == b[..at] + blk[pos % BLOCK_SZ..pos % BLOCK_SZ + chars] + b[at + chars..]
    requires var rest := ReadSpec(d, z, pos + chars, left - chars);
      ReadSpec(d, z, pos, left) == (blk[pos % BLOCK_SZ..pos % BLOCK_SZ + chars] + rest.0, rest.1)
    ensures Turn(d, z, b, b', pos, at, left, chars)
  {
    hide ReadSpec;
    assert b'[at..at + chars] == blk[pos % BLOCK_SZ..pos % BLOCK_SZ + chars];
  }

  method ReadBlock(dev: BlockDevice, zones: Zones, buf: array<Byte>, pos: nat, at: nat, left: nat) returns (chars: nat)
    requires dev.Coherent() && left > 0 && at + left <= buf.Length
    requires buf != dev.flash && buf !in dev.Objects()
    requires CanRead(dev.Disk(), dev.tableFrom, dev.tableTo, zones, pos, left)
    modifies dev, dev.flash, buf
    ensures dev.Coherent() && dev.Disk() == old(dev.Disk())
    ensures forall o :: o in dev.Objects() && o !in old(dev.Objects()) ==> fresh(o)
    ensures chars <= left && CanRead(dev.Disk(), dev.tableFrom, dev.tableTo, zones, pos + chars, left - chars)
    ensures Turn(dev.Disk(), zones, old(buf[..]), buf[..], pos, at, left, chars)
  {
    hide BlockDevice.CoherentBut, BlockDevice.Objects, ReadSpec, CanRead, Locate, Block;
    ReadStep(dev.Disk(), dev.tableFrom, dev.tableTo, zones, pos, left);
    var bh := InodeGetBlk(dev, zones, pos);
    if bh == null {
      return 0;
    }
    var nr := pos % BLOCK_SZ;
    chars := Min(BLOCK_SZ - nr, left);
    ghost var b := buf[..];
    ReadChunk(dev, bh, buf, nr, at, chars);
    ChunkIsTurn(dev.Disk(), zones, b, buf[..], Block(dev.Disk(), bh.blkNo), pos, at, left, chars);
  }

  /** What is done and what is still to do make up the whole. */
  ghost predicate Reading(d: seq<Byte>, z: Zones, whole: (seq<Byte>, bool), b0: seq<Byte>, b: seq<Byte>,
                          pos: nat, at: nat, left: nat)
  {
    && |b| == |b0| && at + left <= |b|
    && whole.0 == b[..at] + ReadSpec(d, z, pos, left).0 && whole.1 == ReadSpec(d, z, pos, left).1
    && b[at..] == b0[at..]
  }

  /** The buffer after the whole read. */
  ghost predicate IsRead(b0: seq<Byte>, b: seq<Byte>, bytes: seq<Byte>) {
    |bytes| <= |b0| && b == bytes + b0[|bytes|..]
  }

  lemma ReadingStarts(d: seq<Byte>, z: Zones, b0: seq<Byte>, pos: nat, left: nat)
    requires left <= |b0|
    ensures Reading(d, z, ReadSpec(d, z, pos, left), b0, b0, pos, 0, left)
  {
    assert b0[..0] + ReadSpec(d, z, pos, left).0 == ReadSpec(d, z, pos, left).0;
  }

  lemma ReadingGoesOn(d: seq<Byte>, z: Zones, whole: (seq<Byte>, bool), b0: seq<Byte>, b: seq<Byte>, b': seq<Byte>,
                      pos: nat, at: nat, left: nat, chars: nat)
    requires Reading(d, z, whole, b0, b, pos, at, left) && Turn(d, z, b, b', pos, at, left, chars)
    ensures chars > 0 ==> Reading(d, z, whole, b0, b', pos + chars, at + chars, left - chars)
    ensures chars == 0 ==> !whole.1 && IsRead(b0, b', whole.0)
  {
    hide ReadSpec;
    if chars > 0 {
      assert b'[..at + chars] == b[..at] + b'[at..at + chars];
      assert b'[at + chars..] == b[at..][chars..];
    }
  }

  lemma ReadingEnds(dev: BlockDevice, d: seq<Byte>, z: Zones, whole: (seq<Byte>, bool), b0: seq<Byte>, b: seq<Byte>,
                    pos: nat, at: nat)
    requires ReadingOn(dev, d, z, whole, b0, b, pos, at, 0)
    ensures dev.Disk() == d
    ensures whole.1 && IsRead(b0, b, whole.0)
  {
  }

  /** minix_read. */
  method MinixRead(dev: BlockDevice, zones: Zones, buf: array<Byte>, pos0: nat, count: nat) returns (r: int)
    requires dev.Coherent() && count <= buf.Length && buf != dev.flash && buf !in dev.Objects()
    requires CanRead(dev.Disk(), dev.tableFrom, dev.tableTo, zones, pos0, count)
    modifies dev, dev.flash, buf
    ensures dev.Coherent() && dev.Disk() == old(dev.Disk())
    ensures forall o :: o in dev.Objects() && o !in old(dev.Objects()) ==> fresh(o)
    ensures var (bytes, ok) := ReadSpec(dev.Disk(), zones, pos0, count);
      && r == (if ok && count > 0 then count else -1)
      && IsRead(old(buf[..]), buf[..], bytes)
  {
    hide BlockDevice.CoherentBut, BlockDevice.Objects, ReadSpec, CanRead, Reading, IsRead;
    ghost var d, b0 := dev.Disk(), buf[..];
    ReadingStarts(d, zones, b0, pos0, count);
    var left := ReadBlocks(dev, zones, buf, pos0, count, ReadSpec(d, zones, pos0, count), d, b0);
    r := if left == 0 && count != 0 then count else -1;
  }

  ghost predicate ReadingOn(dev: BlockDevice, d: seq<Byte>, z: Zones, whole: (seq<Byte>, bool), b0: seq<Byte>,
                            b: seq<Byte>, pos: nat, at: nat, left: nat)
    reads dev.flash
  {
    dev.Disk() == d && Reading(d, z, whole, b0, b, pos, at, left)
      && CanRead(d, dev.tableFrom, dev.tableTo, z, pos, left)
  }

  /** One turn of the loop: `chars` bytes are read, or none when the block is missing. */
  method ReadNext(dev: BlockDevice, zones: Zones, buf: array<Byte>, pos: nat, at: nat, left: nat,
                  ghost whole: (seq<Byte>, bool), ghost d: seq<Byte>, ghost b0: seq<Byte>) returns (chars: nat)
    requires dev.Coherent() && left > 0 && buf != dev.flash && buf !in dev.Objects()
    requires ReadingOn(dev, d, zones, whole, b0, buf[..], pos, at, left)
    modifies dev, dev.flash, buf
    ensures dev.Coherent() && dev.Disk() == d && chars <= left
    ensures forall o :: o in dev.Objects() && o !in old(dev.Objects()) ==> fresh(o)
    ensures chars > 0 ==> ReadingOn(dev, d, zones, whole, b0, buf[..], pos + chars, at + chars, left - chars)
    ensures chars == 0 ==> !whole.1 && IsRead(b0, buf[..], whole.0)
  {
    hide BlockDevice.CoherentBut, BlockDevice.Objects, ReadSpec, CanRead, Turn, IsRead;
    ghost var b := buf[..];
    chars := ReadBlock(dev, zones, buf, pos, at, left);
    ReadingGoesOn(d, zones, whole, b0, b, buf[..], pos, at, left, chars);
  }

  /** The loop of minix_read, with the bytes left when a block is missing. */
  method ReadBlocks(dev: BlockDevice, zones: Zones, buf: array<Byte>, pos0: nat, count: nat,
                    ghost whole: (seq<Byte>, bool), ghost d: seq<Byte>, ghost b0: seq<Byte>) returns (left: nat)
    requires dev.Coherent() && count <= buf.Length && buf != dev.flash && buf !in dev.Objects()
    requires ReadingOn(dev, d, zones, whole, b0, buf[..], pos0, 0, count)
    modifies dev, dev.flash, buf
    ensures dev.Coherent() && dev.Disk() == d
    ensures forall o :: o in dev.Objects() && o !in old(dev.Objects()) ==> fresh(o)
    ensures whole.1 == (left == 0) && IsRead(b0, buf[..], whole.0)
  {
    hide BlockDevice.CoherentBut, BlockDevice.Objects, ReadSpec, ReadingOn, IsRead;
    var pos, at := pos0, 0;
    left := count;
    while left != 0
      invariant 0 <= left <= count && at == count - left
      invariant dev.Coherent() && buf !in dev.Objects()
      invariant forall o :: o in dev.Objects() && o !in old(dev.Objects()) ==> fresh(o)
      invariant ReadingOn(dev, d, zones, whole, b0, buf[..], pos, at, left)
      decreases left
    {
      var chars := ReadNext(dev, zones, buf, pos, at, left, whole, d, b0);
      if chars == 0 {
        return;
      }
      pos := pos + chars;
      left := left - chars;
      at := at + chars;
    }
    ReadingEnds(dev, d, zones, whole, b0, buf[..], pos, at);
  }

  /** The copy out of the buffer, with brelse. */
  method ReadChunk(dev: BlockDevice, bh: BufferHead, buf: array<Byte>, nr: nat, at: nat, chars: nat)
    requires dev.Coherent() && bh in dev.buffers && buf !in dev.Objects()
    requires OnDisk(dev.Disk(), bh.blkNo) && bh.data[..] == Block(dev.Disk(), bh.blkNo)
    requires buf != dev.flash && nr + chars <= BLOCK_SZ && at + chars <= buf.Length
    modifies dev, dev.flash, buf
    ensures dev.Coherent() && dev.Disk() == old(dev.Disk())
    ensures buf[..] == old(buf[..at]) + Block(dev.Disk(), bh.blkNo)[nr..nr + chars] + old(buf[at + chars..])
    ensures dev.Objects() <= old(dev.Objects())
  {
    CopyOut(bh, buf, nr, at, chars);
    assert dev.Current(bh);
    dev.Brelse(bh);
  }

  /** The inner loop of minix_read. */
  method CopyOut(bh: BufferHead, buf: array<Byte>, nr: nat, at: nat, chars: nat)
    requires buf != bh.data && nr + chars <= bh.data.Length && at + chars <= buf.Length
    modifies buf
    ensures buf[..] == old(buf[..at]) + bh.data[nr..nr + chars] + old(buf[at + chars..])
  {
    var k := 0;
    while k < chars
      invariant 0 <= k <= chars
      invariant buf[..] == old(buf[..at]) + bh.data[nr..nr + k] + old(buf[at + k..])
    {
      buf[at + k] := bh.data[nr + k];
      k := k + 1;
    }
  }

  /** The inner loop of minix_write. */
  method CopyIn(bh: BufferHead, buf: array<Byte>, nr: nat, at: nat, chars: nat)
    requires buf != bh.data && nr + chars <= bh.data.Length && at + chars <= buf.Length
    modifies bh.data
    ensures bh.data[..] == Patch(old(bh.data[..]), nr, buf[at..at + chars])
  {
    var k := 0;
    while k < chars
      invariant 0 <= k <= chars
      invariant forall i :: 0 <= i < bh.data.Length ==>
        bh.data[i] == if nr <= i < nr + k then buf[at + i - nr] else old(bh.data[i])
    {
      bh.data[nr + k] := buf[at + k];
      k := k + 1;
    }
  }

  lemma WriteStops(d: seq<Byte>, lo: int, hi: int, z: Zones, buf: seq<Byte>, pos: nat)
    requires CanWrite(d, lo, hi, z, buf, pos)
    ensures buf == [] ==> WriteSpec(d, z, buf, pos) == (d, true)
    ensures buf != [] ==> Accessible(d, lo, hi, z, pos / BLOCK_SZ)
    ensures buf != [] && !Locate(d, z, pos / BLOCK_SZ).At? ==> WriteSpec(d, z, buf, pos) == (d, false)
  {
  }

  lemma WriteStep(d: seq<Byte>, lo: int, hi: int, z: Zones, buf: seq<Byte>, pos: nat, b: int)
    requires buf != [] && CanWrite(d, lo, hi, z, buf, pos)
    requires Locate(d, z, pos / BLOCK_SZ) == At(b)
    ensures Accessible(d, lo, hi, z, pos / BLOCK_SZ)
    ensures var nr, chars := pos % BLOCK_SZ, Min(BLOCK_SZ - pos % BLOCK_SZ, |buf|);
      && 0 <= b * BLOCK_SZ + nr && b * BLOCK_SZ + nr + chars <= |d|
      && WriteSpec(d, z, buf, pos) == WriteSpec(Patch(d, b * BLOCK_SZ + nr, buf[..chars]), z, buf[chars..], pos + chars)
      && CanWrite(Patch(d, b * BLOCK_SZ + nr, buf[..chars]), lo, hi, z, buf[chars..], pos + chars)
  {
  }

  /** One turn of the loop of minix_write: `chars` bytes of `src` go to disk, or none when the block is missing. */
  method WriteBlock(dev: BlockDevice, zones: Zones, buf: array<Byte>, pos: nat, at: nat, left: nat,
                    ghost src: seq<Byte>, ghost whole: (seq<Byte>, bool))
    returns (chars: nat)
    requires dev.Coherent() && left > 0 && at + left == |src| <= buf.Length && src <= buf[..]
    requires buf != dev.flash && buf !in dev.Objects()
    requires WritingOn(dev, zones, whole, src, pos, at)
    modifies dev, dev.flash, dev.Objects()
    ensures dev.Coherent() && forall o :: o in dev.Objects() && o !in old(dev.Objects()) ==> fresh(o)
    ensures buf[..] == old(buf[..])
    ensures chars == 0 ==> whole == (dev.Disk(), false)
    ensures chars > 0 ==>
      chars <= left && WritingOn(dev, zones, whole, src, pos + chars, at + chars)
  {
    hide BlockDevice.CoherentBut, BlockDevice.Objects, WriteSpec, CanWrite, Locate, Patch, Block;
    ghost var rest := src[at..];
    WriteStops(dev.Disk(), dev.tableFrom, dev.tableTo, zones, rest, pos);
    var bh := InodeGetBlk(dev, zones, pos);
    if bh == null {
      return 0;
    }
    var nr := pos % BLOCK_SZ;
    chars := Min(BLOCK_SZ - nr, left);
    WriteStep(dev.Disk(), dev.tableFrom, dev.tableTo, zones, rest, pos, bh.blkNo);
    dev.InObjects(bh);
    forall k | 0 <= k < chars
      ensures rest[..chars][k] == buf[at + k]
    {
      assert buf[..][at + k] == src[at + k];
    }
    assert rest[..chars] == buf[at..at + chars] && rest[chars..] == src[at + chars..];
    WriteChunk(dev, bh, buf, nr, at, chars);
  }

  /** What is on disk and what is still to write make up the whole. */
  ghost predicate Writing(d: seq<Byte>, lo: int, hi: int, z: Zones, whole: (seq<Byte>, bool), src: seq<Byte>,
                          pos: nat, at: nat)
  {
    at <= |src| && CanWrite(d, lo, hi, z, src[at..], pos) && whole == WriteSpec(d, z, src[at..], pos)
  }

  ghost predicate WritingOn(dev: BlockDevice, z: Zones, whole: (seq<Byte>, bool), src: seq<Byte>, pos: nat, at: nat)
    reads dev.flash
  {
    Writing(dev.Disk(), dev.tableFrom, dev.tableTo, z, whole, src, pos, at)
  }

  lemma WritingStarts(dev: BlockDevice, z: Zones, src: seq<Byte>, pos: nat)
    requires CanWrite(dev.Disk(), dev.tableFrom, dev.tableTo, z, src, pos)
    ensures WritingOn(dev, z, WriteSpec(dev.Disk(), z, src, pos), src, pos, 0)
  {
    assert src[0..] == src;
  }

  lemma WritingEnds(dev: BlockDevice, z: Zones, whole: (seq<Byte>, bool), src: seq<Byte>, pos: nat)
    requires WritingOn(dev, z, whole, src, pos, |src|)
    ensures whole == (dev.Disk(), true)
  {
  }

  /** minix_write. */
  method MinixWrite(dev: BlockDevice, zones: Zones, buf: array<Byte>, pos0: nat, count: nat) returns (r: int)
    requires dev.Coherent() && count <= buf.Length && buf != dev.flash && buf !in dev.Objects()
    requires CanWrite(dev.Disk(), dev.tableFrom, dev.tableTo, zones, buf[..count], pos0)
    modifies dev, dev.flash, dev.Objects()
    ensures dev.Coherent() && forall o :: o in dev.Objects() && o !in old(dev.Objects()) ==> fresh(o)
    ensures var (d, ok) := WriteSpec(old(dev.Disk()), zones, old(buf[..count]), pos0);
      && r == (if ok && count > 0 then count else -1)
      && dev.Disk() == d
  {
    hide BlockDevice.CoherentBut, BlockDevice.Objects, WriteSpec, CanWrite, WritingOn;
    ghost var src := buf[..count];
    WritingStarts(dev, zones, src, pos0);
    var left := WriteBlocks(dev, zones, buf, pos0, count, src, WriteSpec(dev.Disk(), zones, src, pos0));
    r := if left == 0 && count != 0 then count else -1;
  }

  /** The loop of minix_write, with the bytes left when a block is missing. */
  method WriteBlocks(dev: BlockDevice, zones: Zones, buf: array<Byte>, pos0: nat, count: nat, ghost src: seq<Byte>,
                     ghost whole: (seq<Byte>, bool)) returns (left: nat)
    requires dev.Coherent() && count == |src| <= buf.Length && src <= buf[..]
    requires buf != dev.flash && buf !in dev.Objects() && WritingOn(dev, zones, whole, src, pos0, 0)
    modifies dev, dev.flash, dev.Objects()
    ensures dev.Coherent() && forall o :: o in dev.Objects() && o !in old(dev.Objects()) ==> fresh(o)
    ensures whole == (dev.Disk(), left == 0)
  {
    hide BlockDevice.CoherentBut, BlockDevice.Objects, WriteSpec, WritingOn;
    var pos, at := pos0, 0;
    left := count;
    while left != 0
      invariant 0 <= left <= count && at == count - left && src <= buf[..]
      invariant dev.Coherent() && buf !in dev.Objects()
      invariant forall o :: o in dev.Objects() && o !in old(dev.Objects()) ==> fresh(o)
      invariant WritingOn(dev, zones, whole, src, pos, at)
      decreases left
    {
      var chars := WriteBlock(dev, zones, buf, pos, at, left, src, whole);
      if chars == 0 {
        return;
      }
      pos := pos + chars;
      left := left - chars;
      at := at + chars;
    }
    WritingEnds(dev, zones, whole, src, pos);
  }

  /** The copy into the buffer, with mark_buffer_dirty and brelse. */
  method WriteChunk(dev: BlockDevice, bh: BufferHead, buf: array<Byte>, nr: nat, at: nat, chars: nat)
    requires dev.Coherent() && bh in dev.buffers && OnDisk(dev.Disk(), bh.blkNo)
    requires bh.data[..] == Block(dev.Disk(), bh.blkNo) && buf != bh.data && buf != dev.flash
    requires nr + chars <= BLOCK_SZ && at + chars <= buf.Length
    modifies dev, dev.flash, bh, bh.data
    ensures dev.Coherent()
    ensures dev.Disk() == Patch(old(dev.Disk()), bh.blkNo * BLOCK_SZ + nr, buf[at..at + chars])
    ensures dev.Objects() <= old(dev.Objects())
  {
    ghost var d := dev.Disk();
    hide BlockDevice.Objects, Patch, Block;
    CopyIn(bh, buf, nr, at, chars);
    bh.dirty := true;
    dev.Brelse(bh);
    PatchInBlock(d, bh.blkNo, nr, buf[at..at + chars]);
  }

  // ---------------------------------------------------------------- open files

  class File {
    const zones: Zones
    var fPos: nat

    constructor (zones: Zones)
      ensures this.zones == zones && fPos == 0
    {
      this.zones, fPos := zones, 0;
    }
  }

  /** file_read: the position moves on by what was read. */
  method FileRead(dev: BlockDevice, filp: File, buf: array<Byte>, count: int) returns (r: int)
    requires dev.Coherent() && count <= buf.Length && buf != dev.flash && buf !in dev.Objects()
    requires count > 0 ==> CanRead(dev.Disk(), dev.tableFrom, dev.tableTo, filp.zones, filp.fPos, count)
    modifies dev, dev.flash, buf, filp
    ensures dev.Coherent() && dev.Disk() == old(dev.Disk())
    ensures count <= 0 ==> r == 0 && filp.fPos == old(filp.fPos) && buf[..] == old(buf[..])
    ensures count > 0 ==> var (bytes, ok) := ReadSpec(dev.Disk(), filp.zones, old(filp.fPos), count);
      && r == (if ok then count else -1) && filp.fPos == old(filp.fPos) + (if ok then count else 0)
      && IsRead(old(buf[..]), buf[..], bytes)
  {
    if count <= 0 {
      return 0;
    }
    var ret := MinixRead(dev, filp.zones, buf, filp.fPos, count);
    if ret > 0 {
      filp.fPos := filp.fPos + ret;
    }
    r := if ret != 0 then ret else -1;
  }

  /** file_write. */
  method FileWrite(dev: BlockDevice, filp: File, buf: array<Byte>, count: int) returns (r: int)
    requires dev.Coherent() && count <= buf.Length && buf != dev.flash && buf !in dev.Objects()
    requires count > 0 ==> CanWrite(dev.Disk(), dev.tableFrom, dev.tableTo, filp.zones, buf[..count], filp.fPos)
    modifies dev, dev.flash, dev.Objects(), filp
    ensures dev.Coherent()
    ensures count <= 0 ==> r == 0 && filp.fPos == old(filp.fPos) && dev.Disk() == old(dev.Disk())
    ensures count > 0 ==> var (d, ok) := WriteSpec(old(dev.Disk()), filp.zones, buf[..count], old(filp.fPos));
      && r == (if ok then count else -1) && filp.fPos == old(filp.fPos) + (if ok then count else 0)
      && dev.Disk() == d
  {
    if count <= 0 {
      return 0;
    }
    var ret := MinixWrite(dev, filp.zones, buf, filp.fPos, count);
    if ret > 0 {
      filp.fPos := filp.fPos + ret;
    }
    r := if ret != 0 then ret else -1;
  }
}
