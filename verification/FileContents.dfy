/** What the chunked reads and writes of MinixFile mean for the bytes of a file. */
module FileContents {
  import opened Bytes
  import opened BlockCache
  import opened MinixFile

  /** The place on disk of byte `p` of the file. */
  ghost function Addr(d: seq<Byte>, z: Zones, p: nat): int {
    match Locate(d, z, p / BLOCK_SZ)
    case At(b) => b * BLOCK_SZ + p % BLOCK_SZ
    case _ => -1
  }

  lemma AddrOnDisk(d: seq<Byte>, z: Zones, p: nat)
    ensures Addr(d, z, p) < |d|
    ensures Locate(d, z, p / BLOCK_SZ).At? ==>
      OnDisk(d, Locate(d, z, p / BLOCK_SZ).b) && 0 <= Addr(d, z, p)
      && Addr(d, z, p) / BLOCK_SZ == Locate(d, z, p / BLOCK_SZ).b
      && Addr(d, z, p) == Locate(d, z, p / BLOCK_SZ).b * BLOCK_SZ + p % BLOCK_SZ
  {
  }

  /** A read returns the bytes of the file, one by one. */
  lemma {:induction false} ReadBytes(d: seq<Byte>, z: Zones, pos: nat, left: nat, k: nat)
    requires k < |ReadSpec(d, z, pos, left).0|
    ensures 0 <= Addr(d, z, pos + k) < |d| && ReadSpec(d, z, pos, left).0[k] == d[Addr(d, z, pos + k)]
    decreases left
  {
    hide Locate;
    var nr, chars, b := pos % BLOCK_SZ, Min(BLOCK_SZ - pos % BLOCK_SZ, left), Locate(d, z, pos / BLOCK_SZ).b;
    if k < chars {
      SameBlock(pos, k);
    } else {
      ReadBytes(d, z, pos + chars, left - chars, k - chars);
    }
  }

  lemma SameBlock(pos: nat, k: nat)
    requires pos % BLOCK_SZ + k < BLOCK_SZ
    ensures (pos + k) / BLOCK_SZ == pos / BLOCK_SZ && (pos + k) % BLOCK_SZ == pos % BLOCK_SZ + k
  {
  }

  /** Only a file block beyond the double indirect range makes a read fail. */
  lemma {:induction false} ReadFails(d: seq<Byte>, lo: int, hi: int, z: Zones, pos: nat, left: nat)
    requires CanRead(d, lo, hi, z, pos, left)
    ensures ReadSpec(d, z, pos, left).1 <==> left == 0 || (pos + left - 1) / BLOCK_SZ < BLOCK_LIMIT
    decreases left
  {
    if left > 0 {
      var chars := Min(BLOCK_SZ - pos % BLOCK_SZ, left);
      ReadFails(d, lo, hi, z, pos + chars, left - chars);
      SameBlock(pos, chars - 1);
      assert pos / BLOCK_SZ <= (pos + left - 1) / BLOCK_SZ;
      assert Locate(d, z, pos / BLOCK_SZ).At? <==> pos / BLOCK_SZ < BLOCK_LIMIT by {
        FailsBeyond(d, lo, hi, z, pos / BLOCK_SZ);
      }
    }
  }

  lemma FailsBeyond(d: seq<Byte>, lo: int, hi: int, z: Zones, n: nat)
    requires Accessible(d, lo, hi, z, n)
    ensures Locate(d, z, n).At? <==> n < BLOCK_LIMIT
  {
  }

  /** The blocks `from` to `to` of the file are on disk, all different, and none is an indirect block used to
      find one of them. */
  ghost predicate Steady(d: seq<Byte>, z: Zones, from: nat, to: nat) {
    && (forall n :: from <= n < to ==> Locate(d, z, n).At?)
    && (forall n, m :: from <= n < m < to ==> Locate(d, z, n) != Locate(d, z, m))
    && (forall n, m :: from <= n < to && from <= m < to ==> Locate(d, z, n).b !in Indirect(z, m))
  }

  /** The file block after the last byte written. */
  function EndBlock(pos: nat, count: nat): nat {
    if count == 0 then pos / BLOCK_SZ else (pos + count - 1) / BLOCK_SZ + 1
  }

  /** Writing to a block leaves the map of a file block that is not found through it. */
  lemma LocateKept(d: seq<Byte>, z: Zones, b: int, at: int, s: seq<Byte>, n: nat)
    requires OnDisk(d, b) && b * BLOCK_SZ <= at && at + |s| <= (b + 1) * BLOCK_SZ
    requires b !in Indirect(z, n)
    ensures Locate(Patch(d, at, s), z, n) == Locate(d, z, n)
  {
    hide Block, Patch, Le;
    if NR_DIRECT <= n < NR_DIRECT + NR_PER_BLOCK {
      LoadKept(d, b, at, s, z[7], 2 * (n - NR_DIRECT));
    } else if n >= NR_DIRECT + NR_PER_BLOCK && n < BLOCK_LIMIT {
      LoadKept(d, b, at, s, z[8], 2 * (n - NR_DIRECT - NR_PER_BLOCK) / 512);
    }
  }

  lemma LoadKept(d: seq<Byte>, b: int, at: int, s: seq<Byte>, c: int, off: int)
    requires OnDisk(d, b) && b * BLOCK_SZ <= at && at + |s| <= (b + 1) * BLOCK_SZ && b != c
    ensures LoadNo(Patch(d, at, s), c, off) == LoadNo(d, c, off)
  {
    if OnDisk(d, c) {
      OtherBlockKept(d, at, s, b, c);
    }
  }

  lemma SteadyKept(d: seq<Byte>, z: Zones, from: nat, to: nat, at: int, s: seq<Byte>)
    requires Steady(d, z, from, to) && from < to && OnDisk(d, Locate(d, z, from).b)
    requires var b := Locate(d, z, from).b; b * BLOCK_SZ <= at && at + |s| <= (b + 1) * BLOCK_SZ
    ensures Steady(Patch(d, at, s), z, from + 1, to)
    ensures forall n :: from <= n < to ==> Locate(Patch(d, at, s), z, n) == Locate(d, z, n)
  {
    hide Locate, Indirect, Patch;
    forall n | from <= n < to
      ensures Locate(Patch(d, at, s), z, n) == Locate(d, z, n)
    {
      LocateKept(d, z, Locate(d, z, from).b, at, s, n);
    }
  }

  /** Byte `i` of the disk is one of the `count` bytes of the file from `pos` on. */
  ghost predicate IsTarget(d: seq<Byte>, z: Zones, pos: nat, count: nat, i: int) {
    exists p: nat :: pos <= p < pos + count && i == Addr(d, z, p)
  }

  /** The first chunk of a write: the disk after it, and how many bytes it takes. */
  ghost function ChunkSize(pos: nat, left: nat): (n: nat)
    ensures left > 0 ==> 0 < n <= left
  {
    Min(BLOCK_SZ - pos % BLOCK_SZ, left)
  }
  ghost function AfterChunk(d: seq<Byte>, z: Zones, buf: seq<Byte>, pos: nat): (r: seq<Byte>)
    requires buf != [] && Locate(d, z, pos / BLOCK_SZ).At?
    ensures |r| == |d|
  {
    AddrOnDisk(d, z, pos);
    Patch(d, Addr(d, z, pos), buf[..ChunkSize(pos, |buf|)])
  }

  lemma FirstChunk(d: seq<Byte>, z: Zones, buf: seq<Byte>, pos: nat)
    requires buf != [] && Steady(d, z, pos / BLOCK_SZ, EndBlock(pos, |buf|))
    ensures Locate(d, z, pos / BLOCK_SZ).At?
    ensures var d1, chars := AfterChunk(d, z, buf, pos), ChunkSize(pos, |buf|);
      && WriteSpec(d, z, buf, pos) == WriteSpec(d1, z, buf[chars..], pos + chars)
      && Steady(d1, z, (pos + chars) / BLOCK_SZ, EndBlock(pos + chars, |buf| - chars))
      && (forall n :: pos / BLOCK_SZ <= n < EndBlock(pos, |buf|) ==> Locate(d1, z, n) == Locate(d, z, n))
  {
    hide Steady, Patch;
    var from, to, chars := pos / BLOCK_SZ, EndBlock(pos, |buf|), ChunkSize(pos, |buf|);
    assert from < to;
    assert Locate(d, z, from).At? by { Mapped(d, z, from, to, from); }
    AddrOnDisk(d, z, pos);
    SteadyKept(d, z, from, to, Addr(d, z, pos), buf[..chars]);
    if chars < |buf| {
      assert (pos + chars) / BLOCK_SZ == from + 1 && EndBlock(pos + chars, |buf| - chars) == to;
    } else {
      NoBlocks(AfterChunk(d, z, buf, pos), z, (pos + chars) / BLOCK_SZ);
    }
  }

  lemma Mapped(d: seq<Byte>, z: Zones, from: nat, to: nat, n: nat)
    requires Steady(d, z, from, to) && from <= n < to
    ensures Locate(d, z, n).At?
  {
  }

  lemma NoBlocks(d: seq<Byte>, z: Zones, n: nat)
    ensures Steady(d, z, n, n)
  {
  }

  /** No block written is an indirect block by which `w` finds block `n`. */
  ghost predicate FindsElsewhere(d: seq<Byte>, z: Zones, from: nat, to: nat, w: Zones, n: nat) {
    forall m :: from <= m < to ==> Locate(d, z, m).At? && Locate(d, z, m).b !in Indirect(w, n)
  }

  /** A write over steady blocks succeeds, and leaves the map of every file, this one included, where its
      indirect blocks are not written. */
  lemma {:induction false} MapKept(d: seq<Byte>, z: Zones, buf: seq<Byte>, pos: nat, w: Zones, n: nat)
    requires Steady(d, z, pos / BLOCK_SZ, EndBlock(pos, |buf|))
    requires FindsElsewhere(d, z, pos / BLOCK_SZ, EndBlock(pos, |buf|), w, n)
    ensures WriteSpec(d, z, buf, pos).1
    ensures Locate(WriteSpec(d, z, buf, pos).0, w, n) == Locate(d, w, n)
    decreases |buf|
  {
    hide Steady, Locate, WriteSpec;
    if buf == [] {
      NothingLeft(d, z, pos);
    } else {
      FirstChunk(d, z, buf, pos);
      var chars := ChunkSize(pos, |buf|);
      var d1 := AfterChunk(d, z, buf, pos);
      ChunkKeepsMap(d, z, buf, pos, w, n);
      assert FindsElsewhere(d1, z, (pos + chars) / BLOCK_SZ, EndBlock(pos + chars, |buf| - chars), w, n);
      MapKept(d1, z, buf[chars..], pos + chars, w, n);
    }
  }

  lemma ChunkKeepsMap(d: seq<Byte>, z: Zones, buf: seq<Byte>, pos: nat, w: Zones, n: nat)
    requires buf != [] && Steady(d, z, pos / BLOCK_SZ, EndBlock(pos, |buf|))
    requires FindsElsewhere(d, z, pos / BLOCK_SZ, EndBlock(pos, |buf|), w, n)
    ensures Locate(d, z, pos / BLOCK_SZ).At?
    ensures Locate(AfterChunk(d, z, buf, pos), w, n) == Locate(d, w, n)
  {
    hide Locate, Patch;
    AddrOnDisk(d, z, pos);
    assert pos / BLOCK_SZ < EndBlock(pos, |buf|);
    LocateKept(d, w, Locate(d, z, pos / BLOCK_SZ).b, Addr(d, z, pos), buf[..ChunkSize(pos, |buf|)], n);
  }

  lemma NothingLeft(d: seq<Byte>, z: Zones, pos: nat)
    ensures WriteSpec(d, z, [], pos) == (d, true)
  {
  }

  /** Positions in the first block lie side by side on disk. */
  lemma FirstBytes(d: seq<Byte>, z: Zones, pos: nat, p: nat)
    requires pos <= p && pos % BLOCK_SZ + (p - pos) < BLOCK_SZ && Locate(d, z, pos / BLOCK_SZ).At?
    ensures p / BLOCK_SZ == pos / BLOCK_SZ && Addr(d, z, p) == Addr(d, z, pos) + (p - pos)
  {
    SameBlock(pos, p - pos);
  }

  lemma InRange(pos: nat, count: nat, p: nat)
    requires pos <= p < pos + count
    ensures pos / BLOCK_SZ <= p / BLOCK_SZ < EndBlock(pos, count)
  {
  }

  /** Nothing else on the disk changes. */
  lemma {:induction false} WriteFrame(d: seq<Byte>, z: Zones, buf: seq<Byte>, pos: nat, i: int)
    requires Steady(d, z, pos / BLOCK_SZ, EndBlock(pos, |buf|))
    requires 0 <= i < |d| && !IsTarget(d, z, pos, |buf|, i)
    ensures WriteSpec(d, z, buf, pos).0[i] == d[i]
    decreases |buf|
  {
    hide Steady, Locate, WriteSpec;
    if buf == [] {
      NothingLeft(d, z, pos);
    } else {
      FirstChunk(d, z, buf, pos);
      var chars, d1 := ChunkSize(pos, |buf|), AfterChunk(d, z, buf, pos);
      var a := Addr(d, z, pos);
      if a <= i < a + chars {
        FirstBytes(d, z, pos, pos + (i - a));
      }
      assert d1[i] == d[i];
      forall p: nat | pos + chars <= p < pos + |buf|
        ensures Addr(d1, z, p) == Addr(d, z, p)
      {
        InRange(pos, |buf|, p);
      }
      WriteFrame(d1, z, buf[chars..], pos + chars, i);
    }
  }

  /** Different positions of steady blocks are different places on disk. */
  lemma AddrsApart(d: seq<Byte>, z: Zones, from: nat, to: nat, p: nat, q: nat)
    requires Steady(d, z, from, to) && from <= p / BLOCK_SZ < to && from <= q / BLOCK_SZ < to && p != q
    ensures Addr(d, z, p) != Addr(d, z, q)
  {
    hide Locate;
    AddrOnDisk(d, z, p);
    AddrOnDisk(d, z, q);
    var n, m := p / BLOCK_SZ, q / BLOCK_SZ;
    assert n < m ==> Locate(d, z, n) != Locate(d, z, m);
    assert m < n ==> Locate(d, z, m) != Locate(d, z, n);
    if n == m {
      assert p == n * BLOCK_SZ + p % BLOCK_SZ && q == m * BLOCK_SZ + q % BLOCK_SZ;
    }
  }

  /** Each byte written is found in its place. */
  lemma {:induction false} WriteLands(d: seq<Byte>, z: Zones, buf: seq<Byte>, pos: nat, p: nat)
    requires Steady(d, z, pos / BLOCK_SZ, EndBlock(pos, |buf|))
    requires pos <= p < pos + |buf|
    ensures 0 <= Addr(d, z, p) < |d| && WriteSpec(d, z, buf, pos).0[Addr(d, z, p)] == buf[p - pos]
    decreases |buf|
  {
    hide Steady, Locate, WriteSpec;
    FirstChunk(d, z, buf, pos);
    InRange(pos, |buf|, p);
    var chars, d1 := ChunkSize(pos, |buf|), AfterChunk(d, z, buf, pos);
    if p < pos + chars {
      FirstBytes(d, z, pos, p);
      AddrOnDisk(d, z, p);
      assert d1[Addr(d, z, p)] == buf[p - pos];
      forall q: nat | pos + chars <= q < pos + |buf|
        ensures Addr(d1, z, q) != Addr(d, z, p)
      {
        InRange(pos, |buf|, q);
        AddrsApart(d, z, pos / BLOCK_SZ, EndBlock(pos, |buf|), p, q);
      }
      WriteFrame(d1, z, buf[chars..], pos + chars, Addr(d, z, p));
    } else {
      WriteLands(d1, z, buf[chars..], pos + chars, p);
    }
  }

  lemma FindsItself(d: seq<Byte>, z: Zones, from: nat, to: nat, n: nat)
    requires Steady(d, z, from, to) && from <= n < to
    ensures FindsElsewhere(d, z, from, to, z, n)
  {
  }

  /** A read succeeds when every block of the range is on disk. */
  lemma {:induction false} ReadsAll(d: seq<Byte>, z: Zones, pos: nat, left: nat)
    requires forall n :: pos / BLOCK_SZ <= n < EndBlock(pos, left) ==> Locate(d, z, n).At?
    ensures ReadSpec(d, z, pos, left).1
    decreases left
  {
    if left > 0 {
      var chars := Min(BLOCK_SZ - pos % BLOCK_SZ, left);
      AddrOnDisk(d, z, pos);
      assert pos / BLOCK_SZ < EndBlock(pos, left);
      hide Locate;
      if chars < left {
        assert (pos + chars) / BLOCK_SZ == pos / BLOCK_SZ + 1;
        assert EndBlock(pos + chars, left - chars) == EndBlock(pos, left);
      }
      ReadsAll(d, z, pos + chars, left - chars);
    }
  }

  /** What was written is read back: for any position and length, over steady blocks. */
  lemma ReadAfterWrite(d: seq<Byte>, z: Zones, buf: seq<Byte>, pos: nat)
    requires Steady(d, z, pos / BLOCK_SZ, EndBlock(pos, |buf|))
    ensures WriteSpec(d, z, buf, pos).1
    ensures ReadSpec(WriteSpec(d, z, buf, pos).0, z, pos, |buf|) == (buf, true)
  {
    hide Locate, WriteSpec, ReadSpec, Steady;
    var d' := WriteSpec(d, z, buf, pos).0;
    if buf == [] {
      NothingLeft(d, z, pos);
      ReadsAll(d, z, pos, 0);
    } else {
      var from, to := pos / BLOCK_SZ, EndBlock(pos, |buf|);
      assert from < to;
      FindsItself(d, z, from, to, from);
      MapKept(d, z, buf, pos, z, from);
      forall n | from <= n < to
        ensures Locate(d', z, n) == Locate(d, z, n) && Locate(d, z, n).At?
      {
        FindsItself(d, z, from, to, n);
        MapKept(d, z, buf, pos, z, n);
        Mapped(d, z, from, to, n);
      }
      ReadsAll(d', z, pos, |buf|);
      var r := ReadSpec(d', z, pos, |buf|).0;
      forall k | 0 <= k < |buf|
        ensures r[k] == buf[k]
      {
        ReadBytes(d', z, pos, |buf|, k);
        WriteLands(d, z, buf, pos, pos + k);
        InRange(pos, |buf|, pos + k);
      }
      assert r == buf;
    }
  }

  /** A file that shares no block with the range written, and is not found through one, reads as before. */
  lemma OtherFileKept(d: seq<Byte>, z: Zones, buf: seq<Byte>, pos: nat, w: Zones, at: nat, left: nat)
    requires Steady(d, z, pos / BLOCK_SZ, EndBlock(pos, |buf|))
    requires forall n :: at / BLOCK_SZ <= n < EndBlock(at, left) ==>
      && Locate(d, w, n).At?
      && FindsElsewhere(d, z, pos / BLOCK_SZ, EndBlock(pos, |buf|), w, n)
      && forall m :: pos / BLOCK_SZ <= m < EndBlock(pos, |buf|) ==> Locate(d, z, m) != Locate(d, w, n)
    ensures ReadSpec(WriteSpec(d, z, buf, pos).0, w, at, left) == ReadSpec(d, w, at, left)
  {
    hide Locate, WriteSpec, ReadSpec, Steady, FindsElsewhere;
    var d' := WriteSpec(d, z, buf, pos).0;
    forall n | at / BLOCK_SZ <= n < EndBlock(at, left)
      ensures Locate(d', w, n) == Locate(d, w, n)
    {
      MapKept(d, z, buf, pos, w, n);
    }
    ReadsAll(d, w, at, left);
    ReadsAll(d', w, at, left);
    var r, r' := ReadSpec(d, w, at, left).0, ReadSpec(d', w, at, left).0;
    forall k | 0 <= k < left
      ensures r'[k] == r[k]
    {
      ReadBytes(d, w, at, left, k);
      ReadBytes(d', w, at, left, k);
      InRange(at, left, at + k);
      NotTarget(d, z, pos, |buf|, w, at + k);
      WriteFrame(d, z, buf, pos, Addr(d, w, at + k));
    }
    assert r' == r;
  }

  lemma NotTarget(d: seq<Byte>, z: Zones, pos: nat, count: nat, w: Zones, q: nat)
    requires Locate(d, w, q / BLOCK_SZ).At?
    requires Steady(d, z, pos / BLOCK_SZ, EndBlock(pos, count))
    requires forall m :: pos / BLOCK_SZ <= m < EndBlock(pos, count) ==> Locate(d, z, m) != Locate(d, w, q / BLOCK_SZ)
    ensures !IsTarget(d, z, pos, count, Addr(d, w, q))
  {
    hide Locate, Steady;
    AddrOnDisk(d, w, q);
    forall p: nat | pos <= p < pos + count
      ensures Addr(d, z, p) != Addr(d, w, q)
    {
      InRange(pos, count, p);
      Mapped(d, z, pos / BLOCK_SZ, EndBlock(pos, count), p / BLOCK_SZ);
      AddrOnDisk(d, z, p);
    }
  }

  /** Such a write is one minix_write can carry out. */
  lemma {:induction false} SteadyCanWrite(d: seq<Byte>, lo: int, hi: int, z: Zones, buf: seq<Byte>, pos: nat)
    requires Steady(d, z, pos / BLOCK_SZ, EndBlock(pos, |buf|))
    requires forall n :: pos / BLOCK_SZ <= n < EndBlock(pos, |buf|) ==> Accessible(d, lo, hi, z, n)
    ensures CanWrite(d, lo, hi, z, buf, pos)
    decreases |buf|
  {
    hide Steady, Locate;
    if buf != [] {
      FirstChunk(d, z, buf, pos);
      AddrOnDisk(d, z, pos);
      assert pos / BLOCK_SZ < EndBlock(pos, |buf|);
      var chars, d1 := ChunkSize(pos, |buf|), AfterChunk(d, z, buf, pos);
      forall n | (pos + chars) / BLOCK_SZ <= n < EndBlock(pos + chars, |buf| - chars)
        ensures Accessible(d1, lo, hi, z, n)
      {
        assert chars < |buf| && pos / BLOCK_SZ <= n < EndBlock(pos, |buf|);
        assert Locate(d1, z, n) == Locate(d, z, n) && Accessible(d, lo, hi, z, n);
      }
      SteadyCanWrite(d1, lo, hi, z, buf[chars..], pos + chars);
    }
  }

  /** Whether a file is read in one go or in two makes no difference. */
  lemma ReadSplits(d: seq<Byte>, z: Zones, pos: nat, a: nat, b: nat)
    requires forall n :: pos / BLOCK_SZ <= n < EndBlock(pos, a + b) ==> Locate(d, z, n).At?
    ensures ReadSpec(d, z, pos, a + b) == (ReadSpec(d, z, pos, a).0 + ReadSpec(d, z, pos + a, b).0, true)
  {
    hide Locate, ReadSpec;
    ReadsAll(d, z, pos, a + b);
    EndBlocks(pos, a, b);
    ReadsAll(d, z, pos, a);
    ReadsAll(d, z, pos + a, b);
    var r, s := ReadSpec(d, z, pos, a + b).0, ReadSpec(d, z, pos, a).0 + ReadSpec(d, z, pos + a, b).0;
    forall k | 0 <= k < a + b
      ensures r[k] == s[k]
    {
      ReadBytes(d, z, pos, a + b, k);
      if k < a {
        ReadBytes(d, z, pos, a, k);
      } else {
        ReadBytes(d, z, pos + a, b, k - a);
      }
    }
    assert r == s;
  }

  lemma EndBlocks(pos: nat, a: nat, b: nat)
    ensures EndBlock(pos, a) <= EndBlock(pos, a + b)
    ensures pos / BLOCK_SZ <= (pos + a) / BLOCK_SZ && (b > 0 ==> EndBlock(pos + a, b) <= EndBlock(pos, a + b))
  {
  }

  // ---------------------------------------------------------------- direct zones

  /** Where byte `p` of a file lies, if it is in the first seven blocks. */
  function DirectPlace(z: Zones, p: nat): int {
    if p / BLOCK_SZ < 7 then z[p / BLOCK_SZ] * BLOCK_SZ + p % BLOCK_SZ else -1
  }

  /** The bytes are in the first seven blocks, whose zones are on disk. */
  ghost predicate DirectOnDisk(d: seq<Byte>, z: Zones, pos: nat, count: nat) {
    && (count > 0 ==> EndBlock(pos, count) <= 7)
    && forall n :: pos / BLOCK_SZ <= n < EndBlock(pos, count) && n < 7 ==> OnDisk(d, z[n])
  }

  ghost predicate DirectApart(z: Zones, pos: nat, count: nat) {
    forall n, m :: pos / BLOCK_SZ <= n < m < EndBlock(pos, count) && m < 7 ==> z[n] != z[m]
  }

  lemma DirectAddr(d: seq<Byte>, z: Zones, p: nat)
    requires p / BLOCK_SZ < 7 && (OnDisk(d, z[p / BLOCK_SZ]) || Addr(d, z, p) >= 0)
    ensures Addr(d, z, p) == DirectPlace(z, p) && 0 <= DirectPlace(z, p) < |d|
  {
    AddrOnDisk(d, z, p);
  }

  /** A read from one of the first seven blocks yields the byte of its zone. */
  lemma DirectByte(d: seq<Byte>, z: Zones, pos: nat, left: nat, k: nat)
    requires k < |ReadSpec(d, z, pos, left).0| && (pos + k) / BLOCK_SZ < 7
    ensures 0 <= DirectPlace(z, pos + k) < |d| && ReadSpec(d, z, pos, left).0[k] == d[DirectPlace(z, pos + k)]
  {
    hide ReadSpec, Locate, Addr;
    ReadBytes(d, z, pos, left, k);
    DirectAddr(d, z, pos + k);
  }

  /** With their zones on disk all bytes are read. */
  lemma DirectRead(d: seq<Byte>, z: Zones, pos: nat, left: nat, k: nat)
    requires DirectOnDisk(d, z, pos, left) && k < left
    ensures ReadSpec(d, z, pos, left).1 && |ReadSpec(d, z, pos, left).0| == left
    ensures 0 <= DirectPlace(z, pos + k) < |d| && ReadSpec(d, z, pos, left).0[k] == d[DirectPlace(z, pos + k)]
  {
    ReadsAll(d, z, pos, left);
    InRange(pos, left, pos + k);
    DirectByte(d, z, pos, left, k);
  }

  /** A write over direct blocks with different zones succeeds and puts each byte in its zone. */
  lemma DirectLands(d: seq<Byte>, z: Zones, buf: seq<Byte>, pos: nat, p: nat)
    requires DirectOnDisk(d, z, pos, |buf|) && DirectApart(z, pos, |buf|) && pos <= p < pos + |buf|
    ensures WriteSpec(d, z, buf, pos).1
    ensures 0 <= DirectPlace(z, p) < |d| && WriteSpec(d, z, buf, pos).0[DirectPlace(z, p)] == buf[p - pos]
  {
    hide WriteSpec, Steady, Locate, Addr;
    DirectSteady(d, z, pos, |buf|);
    WriteSucceeds(d, z, buf, pos);
    InRange(pos, |buf|, p);
    DirectAddr(d, z, p);
    WriteLands(d, z, buf, pos, p);
  }

  /** No other byte of the disk changes. */
  lemma DirectFrame(d: seq<Byte>, z: Zones, buf: seq<Byte>, pos: nat, i: int)
    requires DirectOnDisk(d, z, pos, |buf|) && DirectApart(z, pos, |buf|)
    requires 0 <= i < |d| && forall p :: pos <= p < pos + |buf| ==> DirectPlace(z, p) != i
    ensures WriteSpec(d, z, buf, pos).0[i] == d[i]
  {
    hide WriteSpec, Steady, Locate, Addr, DirectPlace;
    DirectSteady(d, z, pos, |buf|);
    forall p: nat | pos <= p < pos + |buf|
      ensures Addr(d, z, p) != i
    {
      InRange(pos, |buf|, p);
      DirectAddr(d, z, p);
    }
    WriteFrame(d, z, buf, pos, i);
  }

  lemma DirectSteady(d: seq<Byte>, z: Zones, pos: nat, count: nat)
    requires DirectOnDisk(d, z, pos, count) && DirectApart(z, pos, count)
    ensures Steady(d, z, pos / BLOCK_SZ, EndBlock(pos, count))
  {
  }

  lemma WriteSucceeds(d: seq<Byte>, z: Zones, buf: seq<Byte>, pos: nat)
    requires Steady(d, z, pos / BLOCK_SZ, EndBlock(pos, |buf|))
    ensures WriteSpec(d, z, buf, pos).1
  {
    if buf == [] {
      NothingLeft(d, z, pos);
    } else {
      FindsItself(d, z, pos / BLOCK_SZ, EndBlock(pos, |buf|), pos / BLOCK_SZ);
      MapKept(d, z, buf, pos, z, pos / BLOCK_SZ);
    }
  }

  // ---------------------------------------------------------------- indirect blocks

  /** The two-byte entry of a block of block numbers. */
  ghost function EntryAt(d: seq<Byte>, b: int, i: int): int
    requires OnDisk(d, b) && 0 <= i < NR_PER_BLOCK
  {
    Le(Block(d, b)[2 * i..2 * i + 2])
  }

  lemma LeConcat(s: seq<Byte>, t: seq<Byte>)
    requires |s| == 2
    ensures Le(s + t) == Le(s) + 0x1_0000 * Le(t)
  {
    var u := (s + t)[1..];
    assert u[0] == s[1] && u[1..] == t;
    assert s[1..][1..] == [];
    assert Le(u) == s[1] + 256 * Le(t);
    assert Le(s[1..]) == s[1];
  }

  /** An indirect block has entries of two bytes, but eight are loaded: the block found is the one the entry
      names exactly when the next three entries are zero. */
  lemma IndirectIff(d: seq<Byte>, z: Zones, n: nat)
    requires NR_DIRECT <= n < NR_DIRECT + NR_PER_BLOCK - 3 && OnDisk(d, z[7])
    requires OnDisk(d, EntryAt(d, z[7], n - NR_DIRECT))
    ensures var i := n - NR_DIRECT;
      Locate(d, z, n) == At(EntryAt(d, z[7], i))
      <==> EntryAt(d, z[7], i + 1) == EntryAt(d, z[7], i + 2) == EntryAt(d, z[7], i + 3) == 0
  {
    var i, s := n - NR_DIRECT, Block(d, z[7]);
    var a, b, c, e := s[2 * i..2 * i + 2], s[2 * i + 2..2 * i + 4], s[2 * i + 4..2 * i + 6], s[2 * i + 6..2 * i + 8];
    var t := s[2 * i..2 * i + 8];
    assert t == a + (b + (c + e));
    LeConcat(a, b + (c + e));
    LeConcat(b, c + e);
    LeConcat(c, e);
  }

  /** In bytes: an entry followed by six zero bytes leads to the block that it names, low byte first. */
  lemma IndirectByte(d: seq<Byte>, z: Zones, pos: nat, left: nat, k: nat, at: int)
    requires k < |ReadSpec(d, z, pos, left).0| && 7 <= (pos + k) / BLOCK_SZ < 7 + 509 && OnDisk(d, z[7])
    requires at == z[7] * BLOCK_SZ + 2 * ((pos + k) / BLOCK_SZ - 7) && forall j :: at + 2 <= j < at + 8 ==> d[j] == 0
    ensures var place := (d[at] + 256 * (d[at + 1] as int)) * BLOCK_SZ + (pos + k) % BLOCK_SZ;
      place < |d| && ReadSpec(d, z, pos, left).0[k] == d[place]
  {
    hide ReadSpec, Le, LoadNo, Block;
    ReadBytes(d, z, pos, left, k);
    EntryNamed(d, z[7], 2 * ((pos + k) / BLOCK_SZ - 7), at);
  }

  /** In the double indirect range the two bytes are those at the offset of one level, and in the second such block. */
  lemma DoubleByte(d: seq<Byte>, z: Zones, pos: nat, left: nat, k: nat, at: int)
    requires k < |ReadSpec(d, z, pos, left).0| && 519 <= (pos + k) / BLOCK_SZ && OnDisk(d, z[8])
    requires at == z[8] * BLOCK_SZ + ((pos + k) / BLOCK_SZ - 519) / 256 && at + 8 <= (z[8] + 1) * BLOCK_SZ
    requires forall j :: at + 2 <= j < at + 8 ==> d[j] == 0
    ensures var place := (d[at] + 256 * (d[at + 1] as int)) * BLOCK_SZ + (pos + k) % BLOCK_SZ;
      place < |d| && ReadSpec(d, z, pos, left).0[k] == d[place]
  {
    hide ReadSpec, Le, LoadNo, Block;
    ReadBytes(d, z, pos, left, k);
    EntryNamed(d, z[8], ((pos + k) / BLOCK_SZ - 519) / 256, at);
    HalfOf512((pos + k) / BLOCK_SZ - 519);
  }

  lemma HalfOf512(i: nat)
    ensures 2 * i / 512 == i / 256
  {
  }

  lemma EntryNamed(d: seq<Byte>, b: int, off: int, at: int)
    requires OnDisk(d, b) && 0 <= off && off + 8 <= BLOCK_SZ
    requires at == b * BLOCK_SZ + off && forall j :: at + 2 <= j < at + 8 ==> d[j] == 0
    ensures LoadNo(d, b, off) == OnlyOn(d, d[at] + 256 * (d[at + 1] as int))
  {
    SliceOfBlock(d, b, off);
    hide Le, Block;
    TwoBytes(d[at..at + 8]);
  }

  lemma SliceOfBlock(d: seq<Byte>, b: int, off: int)
    requires OnDisk(d, b) && 0 <= off && off + 8 <= BLOCK_SZ
    ensures Block(d, b)[off..off + 8] == d[b * BLOCK_SZ + off..b * BLOCK_SZ + off + 8]
  {
    var at := b * BLOCK_SZ;
    assert d[at..at + BLOCK_SZ][off..off + 8] == d[at + off..at + off + 8];
  }

  lemma TwoBytes(t: seq<Byte>)
    requires |t| >= 2 && forall j :: 2 <= j < |t| ==> t[j] == 0
    ensures Le(t) == t[0] + 256 * (t[1] as int)
  {
    assert t[1..][1..] == t[2..];
    Zeros(t[2..]);
    assert Le(t[1..]) == t[1];
  }

  // ---------------------------------------------------------------- the double indirect range

  /** Block `i` of the double indirect range. */
  function Double(i: nat): nat { NR_DIRECT + NR_PER_BLOCK + i }

  /** The range looks in one block only, at an offset that grows by one for 256 file blocks: two file blocks have the
      same block whatever the disk holds if, and only if, their quotients by 256 are the same. (Offsets from which
      eight bytes run past the block are left out.) */
  lemma DoubleIndirectShares(i: nat, j: nat)
    requires i < NR_PER_BLOCK * NR_PER_BLOCK && j < NR_PER_BLOCK * NR_PER_BLOCK
    requires i / 256 + 8 <= BLOCK_SZ && j / 256 + 8 <= BLOCK_SZ
    ensures i / 256 == j / 256 <==> forall d, z :: Locate(d, z, Double(i)) == Locate(d, z, Double(j))
  {
    if i / 256 == j / 256 {
      forall d, z
        ensures Locate(d, z, Double(i)) == Locate(d, z, Double(j))
      {
        SharesBlock(d, z, i, j);
      }
    } else if i / 256 < j / 256 {
      TellsApart(i, j);
    } else {
      TellsApart(j, i);
    }
  }

  lemma SharesBlock(d: seq<Byte>, z: Zones, i: nat, j: nat)
    requires i < NR_PER_BLOCK * NR_PER_BLOCK && j < NR_PER_BLOCK * NR_PER_BLOCK && i / 256 == j / 256
    ensures Locate(d, z, Double(i)) == Locate(d, z, Double(j))
  {
    assert 2 * i / 512 == 2 * j / 512;
    hide LoadNo;
  }

  /** A disk of two blocks on which they have different ones. */
  ghost function OneByteDisk(q: int): (d: seq<Byte>)
    ensures |d| == 2 * BLOCK_SZ
    ensures forall k :: 0 <= k < |d| ==> d[k] == if k == q then 1 else 0
  {
    seq(2 * BLOCK_SZ, k => if k == q then 1 else 0)
  }

  lemma TellsApart(i: nat, j: nat)
    requires i < NR_PER_BLOCK * NR_PER_BLOCK && j < NR_PER_BLOCK * NR_PER_BLOCK
    requires i / 256 < j / 256 && j / 256 + 8 <= BLOCK_SZ
    ensures exists d, z :: Locate(d, z, Double(i)) != Locate(d, z, Double(j))
  {
    var q, r, d := i / 256, j / 256, OneByteDisk(i / 256);
    var z: Zones := [0, 0, 0, 0, 0, 0, 0, 0, 0];
    OneByteAt(q, q);
    OneByteAt(q, r);
    hide Le, Block, OneByteDisk;
    assert Locate(d, z, Double(i)) == LoadNo(d, 0, q) && Locate(d, z, Double(j)) == LoadNo(d, 0, r);
    assert LoadNo(d, 0, q) == OnlyOn(d, 1) && LoadNo(d, 0, r) == OnlyOn(d, 0);
  }

  /** The number at offset `r` of its first block: 1 at the place of the byte, and 0 behind it. */
  lemma OneByteAt(q: int, r: int)
    requires 0 <= q <= r && r + 8 <= BLOCK_SZ
    ensures Le(Block(OneByteDisk(q), 0)[r..r + 8]) == if q == r then 1 else 0
  {
    var d := OneByteDisk(q);
    var s := Block(d, 0)[r..r + 8];
    forall k | 0 <= k < 8
      ensures s[k] == if r + k == q then 1 else 0
    {
      assert s[k] == d[r + k];
    }
    assert forall k :: 0 <= k < 7 ==> s[1..][k] == s[k + 1];
    Zeros(s[1..]);
  }

  lemma {:induction false} Zeros(s: seq<Byte>)
    requires forall k :: 0 <= k < |s| ==> s[k] == 0
    ensures Le(s) == 0
  {
    if s != [] {
      Zeros(s[1..]);
    }
  }

  /** Two blocks are written to neighbours that share their block, and read back: both reads return the second. So
      what was written is read back if, and only if, both blocks were the same. */
  lemma SharedBlockReadBack(d: seq<Byte>, z: Zones, i: nat, b: int, buf: seq<Byte>)
    requires i + 1 < NR_PER_BLOCK * NR_PER_BLOCK && i % 256 != 255 && |buf| == 2 * BLOCK_SZ
    requires Locate(d, z, Double(i)) == At(b) && OnDisk(d, b) && b != z[8]
    ensures var pos, d' := Double(i) * BLOCK_SZ, WriteSpec(d, z, buf, Double(i) * BLOCK_SZ).0;
      && WriteSpec(d, z, buf, pos).1
      && ReadSpec(d', z, pos, |buf|) == (buf[BLOCK_SZ..] + buf[BLOCK_SZ..], true)
      && (ReadSpec(d', z, pos, |buf|) == (buf, true) <==> buf[..BLOCK_SZ] == buf[BLOCK_SZ..])
  {
    var x, y, at := buf[..BLOCK_SZ], buf[BLOCK_SZ..], b * BLOCK_SZ;
    var d1 := Patch(d, at, x);
    var d' := Patch(d1, at, y);
    assert i / 256 == (i + 1) / 256;
    LocateKept(d, z, b, at, x, Double(i));
    LocateKept(d1, z, b, at, y, Double(i));
    SharesBlock(d1, z, i, i + 1);
    SharesBlock(d', z, i, i + 1);
    assert Block(d', b) == y;
    hide Locate, Patch, Block, WriteSpec;
    hide Double;
    WriteTwo(d, z, Double(i), b, buf);
    ReadTwo(d', z, Double(i), b);
    TwiceIff(buf);
  }

  lemma TwiceIff(buf: seq<Byte>)
    requires |buf| == 2 * BLOCK_SZ
    ensures buf[BLOCK_SZ..] + buf[BLOCK_SZ..] == buf <==> buf[..BLOCK_SZ] == buf[BLOCK_SZ..]
  {
    var y := buf[BLOCK_SZ..];
    assert buf == buf[..BLOCK_SZ] + y && (y + y)[..BLOCK_SZ] == y;
  }

  lemma WriteTwo(d: seq<Byte>, z: Zones, n: nat, b: int, buf: seq<Byte>)
    requires |buf| == 2 * BLOCK_SZ && OnDisk(d, b) && Locate(d, z, n) == At(b)
    requires Locate(Patch(d, b * BLOCK_SZ, buf[..BLOCK_SZ]), z, n + 1) == At(b)
    ensures WriteSpec(d, z, buf, n * BLOCK_SZ)
         == (Patch(Patch(d, b * BLOCK_SZ, buf[..BLOCK_SZ]), b * BLOCK_SZ, buf[BLOCK_SZ..]), true)
  {
    hide Locate, Patch, WriteSpec;
    WriteOneBlock(d, z, buf, n, b);
    WriteLastBlock(Patch(d, b * BLOCK_SZ, buf[..BLOCK_SZ]), z, buf[BLOCK_SZ..], n + 1, b);
  }

  lemma ReadTwo(d: seq<Byte>, z: Zones, n: nat, b: int)
    requires OnDisk(d, b) && Locate(d, z, n) == At(b) && Locate(d, z, n + 1) == At(b)
    ensures ReadSpec(d, z, n * BLOCK_SZ, 2 * BLOCK_SZ) == (Block(d, b) + Block(d, b), true)
  {
    hide Locate, ReadSpec;
    NothingToRead(d, z, (n + 2) * BLOCK_SZ);
    ReadOneBlock(d, z, n, 2 * BLOCK_SZ, b);
    ReadOneBlock(d, z, n + 1, BLOCK_SZ, b);
    assert Block(d, b) + [] == Block(d, b);
  }

  lemma WriteLastBlock(d: seq<Byte>, z: Zones, buf: seq<Byte>, n: nat, b: int)
    requires |buf| == BLOCK_SZ && Locate(d, z, n) == At(b) && OnDisk(d, b)
    ensures WriteSpec(d, z, buf, n * BLOCK_SZ) == (Patch(d, b * BLOCK_SZ, buf), true)
  {
    hide Locate, WriteSpec, Patch;
    assert buf[BLOCK_SZ..] == [] && buf[..BLOCK_SZ] == buf;
    WriteOneBlock(d, z, buf, n, b);
    NothingLeft(Patch(d, b * BLOCK_SZ, buf), z, (n + 1) * BLOCK_SZ);
  }

  lemma NothingToRead(d: seq<Byte>, z: Zones, pos: nat)
    ensures ReadSpec(d, z, pos, 0) == ([], true)
  {
  }

  lemma WriteOneBlock(d: seq<Byte>, z: Zones, buf: seq<Byte>, n: nat, b: int)
    requires |buf| >= BLOCK_SZ && Locate(d, z, n) == At(b) && OnDisk(d, b)
    ensures WriteSpec(d, z, buf, n * BLOCK_SZ)
         == WriteSpec(Patch(d, b * BLOCK_SZ, buf[..BLOCK_SZ]), z, buf[BLOCK_SZ..], (n + 1) * BLOCK_SZ)
  {
    hide Locate, Patch, WriteSpec;
    assert n * BLOCK_SZ / BLOCK_SZ == n && n * BLOCK_SZ + BLOCK_SZ == (n + 1) * BLOCK_SZ;
    WriteUnfolds(d, z, buf, n * BLOCK_SZ, b);
  }

  lemma WriteUnfolds(d: seq<Byte>, z: Zones, buf: seq<Byte>, pos: nat, b: int)
    requires buf != [] && Locate(d, z, pos / BLOCK_SZ) == At(b) && OnDisk(d, b)
    ensures var nr, chars := pos % BLOCK_SZ, Min(BLOCK_SZ - pos % BLOCK_SZ, |buf|);
      && 0 <= b * BLOCK_SZ + nr && b * BLOCK_SZ + nr + chars <= |d|
      && WriteSpec(d, z, buf, pos) == WriteSpec(Patch(d, b * BLOCK_SZ + nr, buf[..chars]), z, buf[chars..], pos + chars)
  {
  }

  lemma ReadOneBlock(d: seq<Byte>, z: Zones, n: nat, left: nat, b: int)
    requires left >= BLOCK_SZ && Locate(d, z, n) == At(b) && OnDisk(d, b)
    ensures var rest := ReadSpec(d, z, (n + 1) * BLOCK_SZ, left - BLOCK_SZ);
      ReadSpec(d, z, n * BLOCK_SZ, left) == (Block(d, b) + rest.0, rest.1)
  {
    hide Locate;
    assert n * BLOCK_SZ / BLOCK_SZ == n && n * BLOCK_SZ + BLOCK_SZ == (n + 1) * BLOCK_SZ;
    assert Block(d, b)[0..BLOCK_SZ] == Block(d, b);
  }
}
