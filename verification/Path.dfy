/** Path resolution (path_len and namei of fs/fs.c): a fold of lookup over the components of the path, which
    are texts of non-NUL characters. */
module Path {
  import opened Bytes
  import opened BlockCache
  import opened Inodes
  import opened Directories

  const SLASH: Byte := 47
  const DOT: Byte := 46

  datatype Option<T> = None | Some(value: T)

  type Lookup = (int, seq<Byte>) -> Option<int>

  /** Leading slashes, and the length of a leading name. */
  function Slashes(p: seq<Byte>): (n: nat)
    ensures n <= |p| && (n < |p| ==> p[n] != SLASH) && forall i :: 0 <= i < n ==> p[i] == SLASH
  {
    if p == [] || p[0] != SLASH then 0 else 1 + Slashes(p[1..])
  }
  function NameLength(p: seq<Byte>): (n: nat)
    ensures n <= |p| && (n < |p| ==> p[n] == SLASH) && forall i :: 0 <= i < n ==> p[i] != SLASH
  {
    if p == [] || p[0] == SLASH then 0 else 1 + NameLength(p[1..])
  }

  /** The names between the slashes. */
  function Components(p: seq<Byte>): (c: seq<seq<Byte>>)
    ensures forall i :: 0 <= i < |c| ==> c[i] != [] && SLASH !in c[i]
    decreases |p|
  {
    if p == [] then []
    else if p[0] == SLASH then Components(p[1..])
    else [p[..NameLength(p)]] + Components(p[NameLength(p)..])
  }

  function Walk(lookup: Lookup, dir: Option<int>, names: seq<seq<Byte>>): Option<int>
    decreases |names|
  {
    if dir.None? || names == [] then dir else Walk(lookup, lookup(dir.value, names[0]), names[1..])
  }

  /** A leading "./" is dropped, once. */
  function Stripped(p: seq<Byte>): seq<Byte> {
    if |p| >= 2 && p[0] == DOT && p[1] == SLASH then p[2..] else p
  }

  function Start(root: int, cur: Option<int>, p: seq<Byte>): Option<int> {
    if p != [] && p[0] == SLASH then Some(root) else cur
  }

  function Resolve(lookup: Lookup, root: int, cur: Option<int>, p: seq<Byte>): Option<int> {
    Walk(lookup, Start(root, cur, p), Components(Stripped(p)))
  }

  /** Each component can be looked up where the ones before it lead. */
  predicate Passable(lookup: Lookup, can: (int, seq<Byte>) -> bool, dir: Option<int>, names: seq<seq<Byte>>)
    decreases |names|
  {
    || dir.None? || names == []
    || (can(dir.value, names[0]) && Passable(lookup, can, lookup(dir.value, names[0]), names[1..]))
  }

  /** path_len: the length of the first name, and the offset of the slashes before it. */
  method PathLen(path: seq<Byte>) returns (length: nat, offset: nat)
    ensures offset == Slashes(path) && length == NameLength(path[offset..])
  {
    length, offset := 0, 0;
    if path == [] {
      return;
    }
    while offset < |path| && path[offset] == SLASH
      invariant 0 <= offset <= |path| && Slashes(path) == offset + Slashes(path[offset..])
    {
      offset := offset + 1;
    }
    ghost var rest := path[offset..];
    assert rest == rest[0..];
    while offset + length < |path| && path[offset + length] != SLASH
      invariant 0 <= length <= |rest| && NameLength(rest) == length + NameLength(rest[length..])
    {
      assert rest[length] == path[offset + length];
      length := length + 1;
    }
  }

  lemma {:induction false} SkipSlashes(p: seq<Byte>)
    ensures Components(p) == Components(p[Slashes(p)..])
  {
    if p != [] && p[0] == SLASH {
      SkipSlashes(p[1..]);
      assert p[1..][Slashes(p[1..])..] == p[Slashes(p)..];
    } else {
      assert p[0..] == p;
    }
  }

  /** The memcpy of a name, and its NUL. */
  method CopyName(name: array<Byte>, path: seq<Byte>, length: nat)
    requires length <= |path| && length < name.Length
    modifies name
    ensures name[..length] == path[..length] && name[length] == 0
  {
    var i := 0;
    while i < length
      invariant 0 <= i <= length && name[..i] == path[..i]
    {
      name[i] := path[i];
      i := i + 1;
    }
    name[length] := 0;
  }

  lemma FirstName(lookup: Lookup, can: (int, seq<Byte>) -> bool, dir: Option<int>, path: seq<Byte>)
    requires dir.Some? && NameLength(path[Slashes(path)..]) > 0 && Passable(lookup, can, dir, Components(path))
    ensures var p, n := path[Slashes(path)..], NameLength(path[Slashes(path)..]);
      && can(dir.value, p[..n])
      && Walk(lookup, dir, Components(path)) == Walk(lookup, lookup(dir.value, p[..n]), Components(p[n..]))
      && Passable(lookup, can, lookup(dir.value, p[..n]), Components(p[n..]))
  {
    SkipSlashes(path);
  }

  lemma NoName(lookup: Lookup, dir: Option<int>, path: seq<Byte>)
    requires NameLength(path[Slashes(path)..]) == 0
    ensures Walk(lookup, dir, Components(path)) == dir
  {
    SkipSlashes(path);
  }

  // ---------------------------------------------------------------- namei

  /** The inode with a number, as it is on disk. */
  ghost predicate HasInode(sb: SuperBlock, d: seq<Byte>, ino: int) { sb.IsIno(ino) && OnDisk(d, sb.RawBlock(ino)) }

  /** Lookup as the disk decides it. */
  ghost function DiskLookup(sb: SuperBlock, d: seq<Byte>): Lookup {
    (ino, name) =>
      if HasInode(sb, d, ino) then
        match Result(d, Decode(sb.Raw(d, ino)), name)
        case Missing => None
        case Entry(n) => Some(n)
      else None
  }

  /** minix_lookup can be called: the inode is a directory that can be searched for the name. */
  ghost predicate Searchable(sb: SuperBlock, d: seq<Byte>, ino: int, name: seq<Byte>) {
    HasInode(sb, d, ino) && var f := Decode(sb.Raw(d, ino));
    && IsDir(f.mode)
    && (|name| <= NAME_LEN ==>
          && CanLookUp(d, sb.dev.tableFrom, sb.dev.tableTo, f.zones, f.size, name, 0)
          && var r := Result(d, f, name); r.Entry? ==> sb.IsIno(r.ino))
  }
  ghost function CanSearch(sb: SuperBlock, d: seq<Byte>): (int, seq<Byte>) -> bool {
    (ino, name) => Searchable(sb, d, ino, name)
  }

  /** Inodes in memory are as on disk, but for the link counts. */
  ghost predicate Synced(sb: SuperBlock)
    reads sb, sb.Cached(), sb.dev, sb.dev.flash
  {
    forall x :: x in sb.inodes ==>
      HasInode(sb, sb.dev.Disk(), x.iNo) && x.Fields() == Decode(sb.Raw(sb.dev.Disk(), x.iNo)).(nlinks := x.iNlink)
  }

  function Number(dir: MemInode?): Option<int> { if dir == null then None else Some(dir.iNo) }

  /** One lookup in the cache is one on disk. */
  method LookUpInode(sb: SuperBlock, dir: MemInode, name: seq<Byte>) returns (inode: MemInode?)
    requires sb.Valid() && Synced(sb) && dir in sb.inodes && IsText(name)
      && Searchable(sb, sb.dev.Disk(), dir.iNo, name)
    modifies sb, sb.dev, sb.Cached()
    ensures sb.Valid() && Synced(sb) && sb.dev.Disk() == old(sb.dev.Disk())
    ensures forall o :: o in sb.dev.Objects() && o !in old(sb.dev.Objects()) ==> fresh(o)
    ensures forall o :: o in sb.Cached() && o !in old(sb.Cached()) ==> fresh(o)
    ensures Number(inode) == DiskLookup(sb, sb.dev.Disk())(dir.iNo, name) && (inode != null ==> inode in sb.inodes)
  {
    hide LookUp, CanLookUp, Decode, SuperBlock.Raw, BlockDevice.CoherentBut;
    ghost var before := sb.inodes;
    inode := MinixLookup(sb, dir, name);
    assert forall x :: x in sb.inodes ==> x in before || x == inode;
  }

  /** namei: resolution of the path on the flat disk, whatever inodes and blocks are cached. */
  method Namei(sb: SuperBlock, root: MemInode, cur: MemInode?, path0: Option<seq<Byte>>) returns (dir: MemInode?)
    requires sb.Valid() && Synced(sb) && root in sb.inodes && (cur != null ==> cur in sb.inodes)
    requires path0.Some? ==>
      && IsText(path0.value)
      && Passable(DiskLookup(sb, sb.dev.Disk()), CanSearch(sb, sb.dev.Disk()),
                  Start(root.iNo, Number(cur), path0.value), Components(Stripped(path0.value)))
    modifies sb, sb.dev, sb.Cached()
    ensures sb.Valid() && Synced(sb) && sb.dev.Disk() == old(sb.dev.Disk()) && (dir != null ==> dir in sb.inodes)
    ensures Number(dir) == if path0.None? then None
                           else Resolve(DiskLookup(sb, sb.dev.Disk()), root.iNo, Number(cur), path0.value)
  {
    if path0.None? {
      return null;
    }
    var path := path0.value;
    if path != [] && path[0] == SLASH {
      dir := root;
    } else if cur == null {
      return null;
    } else {
      dir := cur;
    }
    if |path| >= 2 && path[0] == DOT && path[1] == SLASH {
      path := path[2..];
    }
    dir := WalkPath(sb, dir, path);
  }

  /** The loop of namei. */
  method WalkPath(sb: SuperBlock, start: MemInode, path0: seq<Byte>) returns (dir: MemInode?)
    requires sb.Valid() && Synced(sb) && start in sb.inodes && IsText(path0)
    requires Passable(DiskLookup(sb, sb.dev.Disk()), CanSearch(sb, sb.dev.Disk()), Number(start), Components(path0))
    modifies sb, sb.dev, sb.Cached()
    ensures sb.Valid() && Synced(sb) && sb.dev.Disk() == old(sb.dev.Disk()) && (dir != null ==> dir in sb.inodes)
    ensures Number(dir) == Walk(DiskLookup(sb, sb.dev.Disk()), Number(start), Components(path0))
  {
    hide Components, NameLength, Slashes, Passable, Walk, Synced, DiskLookup, CanSearch;
    var path := path0;
    dir := start;
    ghost var lookup, can := DiskLookup(sb, sb.dev.Disk()), CanSearch(sb, sb.dev.Disk());
    ghost var whole := Walk(lookup, Number(dir), Components(path));
    var name := new Byte[|path| + 1](_ => 0);
    var length, offset := PathLen(path);
    while length != 0
      invariant |path| < name.Length && offset == Slashes(path) && length == NameLength(path[offset..]) && IsText(path)
      invariant sb.Valid() && Synced(sb) && sb.dev.Disk() == old(sb.dev.Disk()) && dir != null && dir in sb.inodes
      invariant forall o :: o in sb.Cached() && o !in old(sb.Cached()) ==> fresh(o)
      invariant name as object !in sb.dev.Objects() && name != sb.dev.flash
      invariant Walk(lookup, Number(dir), Components(path)) == whole
      invariant Passable(lookup, can, Number(dir), Components(path))
      decreases |path|
    {
      dir, path := NextDir(sb, dir, path, length, offset, name);
      if dir == null {
        NowhereToGo(lookup, path);
        return;
      }
      length, offset := PathLen(path);
    }
    NoName(lookup, Number(dir), path);
  }

  /** One turn of the loop of namei. */
  method NextDir(sb: SuperBlock, dir: MemInode, path: seq<Byte>, length: nat, offset: nat, name: array<Byte>)
    returns (dir': MemInode?, path': seq<Byte>)
    requires sb.Valid() && Synced(sb) && dir in sb.inodes && IsText(path) && |path| < name.Length
    requires Passable(DiskLookup(sb, sb.dev.Disk()), CanSearch(sb, sb.dev.Disk()), Number(dir), Components(path))
    requires offset == Slashes(path) && length == NameLength(path[offset..]) && length > 0
    requires name as object !in sb.dev.Objects() && name != sb.dev.flash
    modifies name, sb, sb.dev, sb.Cached()
    ensures sb.Valid() && Synced(sb) && sb.dev.Disk() == old(sb.dev.Disk()) && (dir' != null ==> dir' in sb.inodes)
    ensures forall o :: o in sb.dev.Objects() && o !in old(sb.dev.Objects()) ==> fresh(o)
    ensures forall o :: o in sb.Cached() && o !in old(sb.Cached()) ==> fresh(o)
    ensures |path'| < |path| && IsText(path')
    ensures var lookup := DiskLookup(sb, sb.dev.Disk());
      && Walk(lookup, Number(dir'), Components(path')) == Walk(lookup, Number(dir), Components(path))
      && Passable(lookup, CanSearch(sb, sb.dev.Disk()), Number(dir'), Components(path'))
  {
    hide Components, NameLength, Slashes, Passable, Walk, Synced, DiskLookup, BlockDevice.CoherentBut, Searchable;
    FirstName(DiskLookup(sb, sb.dev.Disk()), CanSearch(sb, sb.dev.Disk()), Number(dir), path);
    path' := path[offset..];
    CopyName(name, path', length);
    path' := path'[length..];
    dir' := LookUpInode(sb, dir, name[..length]);
  }

  lemma NowhereToGo(lookup: Lookup, path: seq<Byte>)
    ensures Walk(lookup, None, Components(path)) == None
  {
  }

  // ---------------------------------------------------------------- what resolution means

  lemma {:induction false} NameLengthJoin(p: seq<Byte>, q: seq<Byte>)
    ensures NameLength(p + [SLASH] + q) == NameLength(p)
  {
    if p != [] && p[0] != SLASH {
      assert (p + [SLASH] + q)[1..] == p[1..] + [SLASH] + q;
      NameLengthJoin(p[1..], q);
    }
  }

  /** Joining paths with a slash joins their components; so repeated and trailing slashes do not matter. */
  lemma {:induction false} ComponentsJoin(p: seq<Byte>, q: seq<Byte>)
    ensures Components(p + [SLASH] + q) == Components(p) + Components(q)
    decreases |p|
  {
    var s := p + [SLASH] + q;
    if p == [] {
      assert s[1..] == q;
    } else if p[0] == SLASH {
      assert s[1..] == p[1..] + [SLASH] + q;
      ComponentsJoin(p[1..], q);
    } else {
      var n := NameLength(p);
      NameLengthJoin(p, q);
      assert s[..n] == p[..n] && s[n..] == p[n..] + [SLASH] + q;
      ComponentsJoin(p[n..], q);
    }
  }

  lemma {:induction false} WalkJoin(lookup: Lookup, dir: Option<int>, a: seq<seq<Byte>>, b: seq<seq<Byte>>)
    ensures Walk(lookup, dir, a + b) == Walk(lookup, Walk(lookup, dir, a), b)
    decreases |a|
  {
    if dir.Some? && a != [] {
      assert (a + b)[1..] == a[1..] + b;
      WalkJoin(lookup, lookup(dir.value, a[0]), a[1..], b);
    } else if a == [] {
      assert a + b == b;
    }
  }

  /** Resolving p/q is resolving q from where p leads. */
  lemma ResolveJoin(lookup: Lookup, root: int, cur: Option<int>, p: seq<Byte>, q: seq<Byte>)
    requires p != [] && p != [DOT]
    requires Stripped(q) == q && (q == [] || q[0] != SLASH)
    ensures Resolve(lookup, root, cur, p + [SLASH] + q) == Resolve(lookup, root, Resolve(lookup, root, cur, p), q)
  {
    var s := p + [SLASH] + q;
    assert Stripped(s) == Stripped(p) + [SLASH] + q;
    ComponentsJoin(Stripped(p), q);
    WalkJoin(lookup, Start(root, cur, p), Components(Stripped(p)), Components(q));
  }

  /** A slash more in the middle changes nothing. */
  lemma RepeatedSlash(lookup: Lookup, root: int, cur: Option<int>, p: seq<Byte>, q: seq<Byte>)
    ensures Resolve(lookup, root, cur, p + [SLASH] + [SLASH] + q) == Resolve(lookup, root, cur, p + [SLASH] + q)
  {
    var s, t := p + [SLASH] + q, p + [SLASH] + [SLASH] + q;
    assert t == p + [SLASH] + ([SLASH] + q) && ([SLASH] + q)[1..] == q;
    if p == [DOT] {
      assert s[2..] == q && t[2..] == [SLASH] + q;
    } else {
      assert Stripped(s) == Stripped(p) + [SLASH] + q && Stripped(t) == Stripped(p) + [SLASH] + ([SLASH] + q);
      ComponentsJoin(Stripped(p), q);
      ComponentsJoin(Stripped(p), [SLASH] + q);
    }
  }

  /** Nor does a slash at the end. */
  lemma TrailingSlash(lookup: Lookup, root: int, cur: Option<int>, p: seq<Byte>)
    requires p != [] && p != [DOT]
    ensures Resolve(lookup, root, cur, p + [SLASH]) == Resolve(lookup, root, cur, p)
  {
    assert Stripped(p + [SLASH]) == Stripped(p) + [SLASH] + [];
    ComponentsJoin(Stripped(p), []);
    assert Components(Stripped(p)) + Components([]) == Components(Stripped(p));
  }

  /** A path that begins with a slash is resolved from the root, wherever the current directory is. */
  lemma AbsolutePath(lookup: Lookup, root: int, cur: Option<int>, cur': Option<int>, p: seq<Byte>)
    ensures Resolve(lookup, root, cur, [SLASH] + p) == Resolve(lookup, root, cur', [SLASH] + p)
    ensures Stripped(p) == p && (p == [] || p[0] != SLASH) ==>
      Resolve(lookup, root, cur, [SLASH] + p) == Resolve(lookup, root, Some(root), p)
  {
    var s := [SLASH] + p;
    assert s[0] == SLASH && s[1..] == p;
    assert Stripped(s) == s && Components(s) == Components(p);
  }

  lemma {:induction false} NameAlone(name: seq<Byte>)
    requires SLASH !in name
    ensures NameLength(name) == |name|
  {
    if name != [] {
      NameAlone(name[1..]);
    }
  }

  /** A name is looked up once, where it starts from; a leading "./" makes no difference. */
  lemma ResolveName(lookup: Lookup, root: int, cur: int, name: seq<Byte>)
    requires name != [] && SLASH !in name
    ensures Resolve(lookup, root, Some(cur), name) == lookup(cur, name)
    ensures Resolve(lookup, root, Some(cur), [DOT, SLASH] + name) == lookup(cur, name)
    ensures Resolve(lookup, root, None, name) == None
    ensures Components(name) == [name]
  {
    NameAlone(name);
    assert name[..|name|] == name && name[|name|..] == [];
    assert Components(name) == [name] + Components([]);
    assert Stripped(name) == name && Stripped([DOT, SLASH] + name) == name;
    WalkOne(lookup, Some(cur), name);
  }

  lemma WalkOne(lookup: Lookup, dir: Option<int>, name: seq<Byte>)
    ensures Walk(lookup, dir, [name]) == if dir.None? then None else lookup(dir.value, name)
  {
    assert [name][1..] == [];
  }

  /** Of several leading "./" one is dropped. */
  lemma DotSlashOnce(lookup: Lookup, root: int, cur: Option<int>, p: seq<Byte>)
    ensures Resolve(lookup, root, cur, [DOT, SLASH] + p) == Walk(lookup, cur, Components(p))
    ensures cur.Some? ==>
      Resolve(lookup, root, cur, [DOT, SLASH] + ([DOT, SLASH] + p))
      == Walk(lookup, lookup(cur.value, [DOT]), Components(p))
  {
    var q := [DOT, SLASH] + p;
    assert ([DOT, SLASH] + p)[2..] == p && ([DOT, SLASH] + q)[2..] == q;
    assert q == [DOT] + [SLASH] + p;
    ComponentsJoin([DOT], p);
    ResolveName(lookup, root, 0, [DOT]);
    WalkJoin(lookup, cur, [[DOT]], Components(p));
    WalkOne(lookup, cur, [DOT]);
  }

  /** Names one after the other, each behind a slash. */
  function Slashed(names: seq<seq<Byte>>): seq<Byte> {
    if names == [] then [] else [SLASH] + names[0] + Slashed(names[1..])
  }

  /** They come out as its components, so that each is looked up where the ones before it lead, from the root on. */
  lemma {:induction false} ComponentsBack(names: seq<seq<Byte>>)
    requires forall i :: 0 <= i < |names| ==> names[i] != [] && SLASH !in names[i]
    ensures Components(Slashed(names)) == names
  {
    hide Components;
    if names == [] {
      NoComponents();
    } else {
      ComponentsBack(names[1..]);
      FirstComponent(names[0], Slashed(names[1..]));
      assert [names[0]] + names[1..] == names;
    }
  }

  lemma NoComponents()
    ensures Components([]) == []
  {
  }

  lemma FirstComponent(name: seq<Byte>, rest: seq<Byte>)
    requires name != [] && SLASH !in name && (rest == [] || rest[0] == SLASH)
    ensures Components([SLASH] + name + rest) == [name] + Components(rest)
  {
    var s := name + rest;
    assert ([SLASH] + name + rest)[1..] == s;
    assert NameLength(s) == |name| by {
      if rest == [] {
        assert s == name;
        NameAlone(name);
      } else {
        assert s == name + [SLASH] + rest[1..];
        NameLengthJoin(name, rest[1..]);
        NameAlone(name);
      }
    }
    assert s[..|name|] == name && s[|name|..] == rest;
  }

  /** Each name more is one lookup more. */
  lemma ResolveNames(lookup: Lookup, root: int, cur: Option<int>, names: seq<seq<Byte>>, name: seq<Byte>)
    requires forall i :: 0 <= i < |names| ==> names[i] != [] && SLASH !in names[i]
    requires name != [] && SLASH !in name
    ensures Slashed(names + [name])[0] == SLASH
    ensures var dir := if names == [] then Some(root) else Resolve(lookup, root, cur, Slashed(names));
      Resolve(lookup, root, cur, Slashed(names + [name])) == if dir.None? then None else lookup(dir.value, name)
  {
    var p, q := Slashed(names), Slashed(names + [name]);
    ComponentsBack(names);
    ComponentsBack(names + [name]);
    assert Stripped(q) == q && Stripped(p) == p;
    WalkJoin(lookup, Some(root), names, [name]);
    WalkOne(lookup, Walk(lookup, Some(root), names), name);
  }

  /** A name that an entry of a directory on disk stores leads to the inode with the number of that entry. */
  lemma EntryResolves(sb: SuperBlock, d: seq<Byte>, root: int, cur: int, name: seq<Byte>, ino: nat, e: nat)
    requires IsText(name) && 0 < |name| < NAME_LEN && SLASH !in name && 0 < ino < 0x1_0000 && HasInode(sb, d, cur)
    requires var f := Decode(sb.Raw(d, cur));
      && IsDir(f.mode) && AllOnDisk(d, f.zones, f.size)
      && InDirectory(f.size, 0, e) && EntryIs(d, f.zones, e, ino, name)
      && forall g: nat :: g < e ==> !Stores(d, f.zones, g, name)
    ensures Resolve(DiskLookup(sb, d), root, Some(cur), name) == Some(ino)
  {
    var f := Decode(sb.Raw(d, cur));
    LookUpRoundTrip(d, f.zones, f.size, name, ino, e);
    ResolveName(DiskLookup(sb, d), root, cur, name);
    hide LookUp, Decode, SuperBlock.Raw;
  }
}
