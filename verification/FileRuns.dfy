/** Runs of file reads and writes, directory searches, and reads and writes of inodes, against the flat disk. */
module FileRuns {
  import opened Bytes
  import opened BlockCache
  import opened MinixFile
  import opened Inodes
  import opened Directories

  /** What is asked of the file layer: files and directories are given by their fields in memory. */
  datatype Request =
    | ReadReq(zones: Zones, pos: nat, count: nat)
    | WriteReq(zones: Zones, pos: nat, data: seq<Byte>)
    | LookUpReq(dir: RawInode, name: seq<Byte>)
    | InodeReadReq(ino: nat)
    | InodeWriteReq(ino: nat, fields: RawInode)

  datatype Reply = Done | Data(bytes: seq<Byte>) | Number(found: Found)

  ghost function DiskAfter(sb: SuperBlock, d: seq<Byte>, r: Request): (d': seq<Byte>)
    ensures |d'| == |d|
  {
    match r
    case WriteReq(z, pos, data) => WriteSpec(d, z, data, pos).0
    case InodeWriteReq(ino, f) =>
      if sb.IsIno(ino) && OnDisk(d, sb.RawBlock(ino)) then sb.WithRaw(d, ino, Encode(f)) else d
    case _ => d
  }

  /** What a request returns: the bytes of a read that succeeds, the inode number of the entry found, the bytes
      of an inode. */
  ghost function Answer(sb: SuperBlock, d: seq<Byte>, r: Request): Reply {
    match r
    case ReadReq(z, pos, count) => Data(if ReadSpec(d, z, pos, count).1 then ReadSpec(d, z, pos, count).0 else [])
    case LookUpReq(dir, name) => Number(Result(d, dir, name))
    case InodeReadReq(ino) =>
      Data(if sb.IsIno(ino) && OnDisk(d, sb.RawBlock(ino)) then sb.Raw(d, ino) else [])
    case _ => Done
  }

  ghost predicate Allowed(sb: SuperBlock, d: seq<Byte>, r: Request) {
    var lo, hi := sb.dev.tableFrom, sb.dev.tableTo;
    match r
    case ReadReq(z, pos, count) => CanRead(d, lo, hi, z, pos, count)
    case WriteReq(z, pos, data) => CanWrite(d, lo, hi, z, data, pos)
    case LookUpReq(dir, name) =>
      && IsText(name)
      && (IsDir(dir.mode) && |name| <= NAME_LEN ==>
            CanLookUp(d, lo, hi, dir.zones, dir.size, name, 0)
            && var f := Result(d, dir, name); f.Entry? ==> sb.IsIno(f.ino))
    case _ => true
  }

  ghost predicate AllAllowed(sb: SuperBlock, d: seq<Byte>, rs: seq<Request>)
    decreases |rs|
  {
    rs == [] || (Allowed(sb, d, rs[0]) && AllAllowed(sb, DiskAfter(sb, d, rs[0]), rs[1..]))
  }
  ghost function DiskAfterAll(sb: SuperBlock, d: seq<Byte>, rs: seq<Request>): seq<Byte>
    decreases |rs|
  {
    if rs == [] then d else DiskAfterAll(sb, DiskAfter(sb, d, rs[0]), rs[1..])
  }
  ghost function Answers(sb: SuperBlock, d: seq<Byte>, rs: seq<Request>): seq<Reply>
    decreases |rs|
  {
    if rs == [] then [] else [Answer(sb, d, rs[0])] + Answers(sb, DiskAfter(sb, d, rs[0]), rs[1..])
  }

  /** An inode in memory with the fields given. */
  method InMemory(ino: nat, f: RawInode) returns (inode: MemInode)
    ensures fresh(inode) && inode.iNo == ino && inode.Fields() == f
  {
    inode := new MemInode(ino);
    inode.iMode, inode.iUid, inode.iSize, inode.iMtime := f.mode, f.uid, f.size, f.time;
    inode.iGid, inode.iNlink, inode.iData := f.gid, f.nlinks, f.zones;
  }

  method ServeLookUp(sb: SuperBlock, dir: RawInode, name: seq<Byte>) returns (answer: Reply)
    requires sb.Valid() && Allowed(sb, sb.dev.Disk(), LookUpReq(dir, name))
    modifies sb, sb.dev, sb.Cached()
    ensures sb.Valid() && sb.dev.Disk() == old(sb.dev.Disk())
    ensures forall o :: o in sb.dev.Objects() && o !in old(sb.dev.Objects()) ==> fresh(o)
    ensures forall o :: o in sb.Cached() && o !in old(sb.Cached()) ==> fresh(o)
    ensures answer == Answer(sb, old(sb.dev.Disk()), LookUpReq(dir, name))
  {
    hide LookUp, CanLookUp, SuperBlock.Raw, Decode;
    var d := InMemory(0, dir);
    var inode := MinixLookup(sb, d, name);
    answer := Number(if inode == null then Missing else Entry(inode.iNo));
  }

  method ServeInodeRead(sb: SuperBlock, ino: nat) returns (answer: Reply)
    requires sb.Valid()
    modifies sb.dev
    ensures sb.Valid() && sb.dev.Disk() == old(sb.dev.Disk())
    ensures forall o :: o in sb.dev.Objects() && o !in old(sb.dev.Objects()) ==> fresh(o)
    ensures answer == Answer(sb, old(sb.dev.Disk()), InodeReadReq(ino))
  {
    hide BlockDevice.CoherentBut;
    var bh, off := sb.MinixRawInode(ino);
    answer := Data(if bh == null then [] else bh.data[..][off..off + RAW_SIZE]);
  }

  method ServeInodeWrite(sb: SuperBlock, ino: nat, f: RawInode)
    requires sb.Valid()
    modifies sb.dev, sb.dev.flash
    ensures sb.Valid() && sb.dev.Disk() == DiskAfter(sb, old(sb.dev.Disk()), InodeWriteReq(ino, f))
    ensures forall o :: o in sb.dev.Objects() && o !in old(sb.dev.Objects()) ==> fresh(o)
  {
    hide Encode, SuperBlock.WithRaw;
    var inode := InMemory(ino, f);
    sb.MinixWriteInode(inode);
  }

  method ServeData(sb: SuperBlock, r: Request) returns (answer: Reply)
    requires sb.Valid() && Allowed(sb, sb.dev.Disk(), r) && (r.ReadReq? || r.WriteReq?)
    modifies sb.dev, sb.dev.flash, sb.dev.Objects()
    ensures sb.Valid() && sb.dev.Disk() == DiskAfter(sb, old(sb.dev.Disk()), r)
    ensures forall o :: o in sb.dev.Objects() && o !in old(sb.dev.Objects()) ==> fresh(o)
    ensures answer == Answer(sb, old(sb.dev.Disk()), r)
  {
    hide BlockDevice.CoherentBut, ReadSpec, WriteSpec, CanRead, CanWrite;
    match r
    case ReadReq(z, pos, count) =>
      var buf := new Byte[count](_ => 0);
      var n := MinixRead(sb.dev, z, buf, pos, count);
      answer := Data(if n == count then buf[..] else []);
    case WriteReq(z, pos, data) =>
      var buf := new Byte[|data|](i requires 0 <= i < |data| => data[i]);
      assert buf[..|data|] == data;
      var n := MinixWrite(sb.dev, z, buf, pos, |data|);
      answer := Done;
  }

  /** One request, through the cache. */
  method Serve(sb: SuperBlock, r: Request) returns (answer: Reply)
    requires sb.Valid() && Allowed(sb, sb.dev.Disk(), r)
    modifies sb, sb.Cached(), sb.dev, sb.dev.flash, sb.dev.Objects()
    ensures sb.Valid()
    ensures forall o :: o in sb.dev.Objects() && o !in old(sb.dev.Objects()) ==> fresh(o)
    ensures forall o :: o in sb.Cached() && o !in old(sb.Cached()) ==> fresh(o)
    ensures sb.dev.Disk() == DiskAfter(sb, old(sb.dev.Disk()), r) && answer == Answer(sb, old(sb.dev.Disk()), r)
  {
    hide BlockDevice.CoherentBut, Allowed;
    match r
    case LookUpReq(dir, name) =>
      answer := ServeLookUp(sb, dir, name);
    case InodeReadReq(ino) =>
      answer := ServeInodeRead(sb, ino);
    case InodeWriteReq(ino, f) =>
      ServeInodeWrite(sb, ino, f);
      answer := Done;
    case _ =>
      answer := ServeData(sb, r);
  }

  /** Over any run of requests, whatever is cached at the start, the answers and the disk are those of the flat
      disk alone, and the cache stays coherent: outside the inode table a block has at most one buffer, clean and
      equal to the block, and the stale buffers of the inode table are never consulted. */
  method ServeAll(sb: SuperBlock, requests: seq<Request>) returns (answers: seq<Reply>)
    requires sb.Valid() && AllAllowed(sb, sb.dev.Disk(), requests)
    modifies sb, sb.Cached(), sb.dev, sb.dev.flash, sb.dev.Objects()
    ensures sb.Valid()
    ensures sb.dev.Disk() == DiskAfterAll(sb, old(sb.dev.Disk()), requests)
    ensures answers == Answers(sb, old(sb.dev.Disk()), requests)
  {
    hide BlockDevice.CoherentBut, BlockDevice.Objects, Allowed, DiskAfter, Answer;
    answers := [];
    var i := 0;
    ghost var d := sb.dev.Disk();
    assert requests[0..] == requests && [] + Answers(sb, d, requests) == Answers(sb, d, requests);
    while i < |requests|
      invariant 0 <= i <= |requests| && sb.Valid()
      invariant forall o :: o in sb.dev.Objects() && o !in old(sb.dev.Objects()) ==> fresh(o)
      invariant forall o :: o in sb.Cached() && o !in old(sb.Cached()) ==> fresh(o)
      invariant AllAllowed(sb, sb.dev.Disk(), requests[i..])
      invariant DiskAfterAll(sb, d, requests) == DiskAfterAll(sb, sb.dev.Disk(), requests[i..])
      invariant Answers(sb, d, requests) == answers + Answers(sb, sb.dev.Disk(), requests[i..])
    {
      ghost var before, rest := answers, requests[i..];
      assert rest[0] == requests[i] && rest[1..] == requests[i + 1..];
      var answer := Serve(sb, requests[i]);
      answers := answers + [answer];
      assert before + ([answer] + Answers(sb, sb.dev.Disk(), rest[1..]))
        == answers + Answers(sb, sb.dev.Disk(), rest[1..]);
      i := i + 1;
    }
    assert requests[i..] == [];
  }
}
