/** Conservation: creating a file, writing to it and removing it leaves the store as it was. */
module Scripts {
  import opened Bits
  import opened ByteFile
  import opened Chains
  import opened Contents
  import opened Effects
  import opened FileSystem
  import opened Layout
  import opened Lookup
  import opened Paths
  import Session
  import opened Steps
  import opened Store
  import opened Unlinks

  /** A write of bytes at a position. */
  datatype Chunk = Chunk(at: nat, bytes: seq<byte>)

  function Replay(s: seq<byte>, writes: seq<Chunk>): seq<byte> {
    if writes == [] then s
    else Overwrite(Replay(s, writes[..|writes| - 1]), writes[|writes| - 1].at, writes[|writes| - 1].bytes)
  }

  /** The end of the chunk that ends last. */
  function Extent(writes: seq<Chunk>): (e: nat)
    ensures forall i | 0 <= i < |writes| :: writes[i].at + |writes[i].bytes| <= e
  {
    if writes == [] then 0
    else Max(Extent(writes[..|writes| - 1]), writes[|writes| - 1].at + |writes[|writes| - 1].bytes|)
  }

  /** Two sound images of the same roles and spare blocks have the same freemap. */
  lemma SameMap(d: seq<Block>, t: Tree, d2: seq<Block>, t2: Tree, r: map<nat, Role>, spare: set<nat>)
    requires Sound(d, t, r, spare) && Sound(d2, t2, r, spare)
    ensures MapOf(d) == MapOf(d2)
  {
    hide Consistent, Marked, ZeroTail;
    LengthFact(d, t, r);
    LengthFact(d2, t2, r);
    MapExtensional(MapOf(d), MapOf(d2));
  }

  /** A file with room for a write of which it is known that it stays within the extent. */
  lemma RoomFor(file: FileNode, c: Chunk, extent: nat, free: int)
    requires |file.chain| <= FrameCount(extent) && c.at + |c.bytes| <= extent
    requires free + Taken(file) >= 1 + (FRAME_COUNT + 1) * FrameCount(extent)
    ensures free >= WriteNeeds(file, c.at, |c.bytes|)
  {
    hide Taken, WriteNeeds, FrameCount;
    NeedsAreBounded(file, c.at, |c.bytes|);
    FrameCountMonotone(c.at + |c.bytes|, extent);
  }

  /** A seek and a write for each chunk. */
  method WriteAll(fs: Sfs, fd: int, writes: seq<Chunk>)
    requires fs.Valid() && fs.LiveFd(fd)
    requires fs.FdFile(fd).size <= Extent(writes)
    requires fs.Free() + Taken(fs.FdFile(fd)) >= 1 + (FRAME_COUNT + 1) * FrameCount(Extent(writes))
    modifies fs.disk, fs.freemap, fs.fdtable, fs`tree, fs`roles, fs`spare, fs`log
    ensures fs.Valid() && fs.LiveFd(fd) && LogGrows(old(fs.log), fs.log) && fs.spare == old(fs.spare)
    ensures fs.fdtable[fd].inodeBid == old(fs.fdtable[fd].inodeBid) && fs.fdtable[fd].dirBid == old(fs.fdtable[fd].dirBid)
    ensures fs.tree == WithFile(old(fs.tree), fs.fdtable[fd].inodeBid, fs.FdFile(fd))
    ensures RolesGrow(old(fs.roles), fs.roles, fs.fdtable[fd].inodeBid)
    ensures fs.Files() == old(fs.Files())[fs.fdtable[fd].inodeBid := Replay(old(fs.FdBytes(fd)), writes)]
  {
    hide Sfs.Stored, FrameCount, Taken, WriteNeeds, LogGrows, RolesGrow, Reserved, Named, Sized, FilesOf, FreeCount, MapOf;
    ghost var f, t0, r0, files0 := fs.fdtable[fd].inodeBid, fs.tree, fs.roles, fs.Files();
    ghost var content := fs.FdBytes(fd);
    NoLog(fs.log);
    NoGrowth(t0, r0, f, fs.disk[..]);
    var i := 0;
    while i < |writes|
      invariant 0 <= i <= |writes|
      invariant fs.Valid() && fs.LiveFd(fd) && LogGrows(old(fs.log), fs.log) && fs.spare == old(fs.spare)
      invariant fs.fdtable[fd].inodeBid == f && fs.fdtable[fd].dirBid == old(fs.fdtable[fd].dirBid)
      invariant fs.tree == WithFile(t0, f, fs.FdFile(fd)) && RolesGrow(r0, fs.roles, f)
      invariant fs.FdFile(fd).size <= Extent(writes)
      invariant fs.Free() + Taken(fs.FdFile(fd)) == old(fs.Free() + Taken(fs.FdFile(fd)))
      invariant fs.Files() == files0[f := Replay(content, writes[..i])]
    {
      ghost var r1, log1 := fs.roles, fs.log;
      var ret := fs.Seek(fd, writes[i].at, SeekSet);
      assert fs.FdBytes(fd) == fs.Files()[f] by { FileInFiles(fs.disk[..], fs.tree, f); }
      ChainWithin(fs.tree, f, Extent(writes));
      RoomFor(fs.FdFile(fd), writes[i], Extent(writes), fs.Free());
      ghost var file1 := fs.FdFile(fd);
      var n := fs.Write(fd, writes[i].bytes);
      ReservedSize(file1, fs.FdFile(fd), writes[i].at, |writes[i].bytes|);
      LogGrowsTrans(old(fs.log), log1, fs.log);
      RolesGrowTrans(r0, r1, fs.roles, f);
      assert writes[..i + 1][..i] == writes[..i];
      i := i + 1;
    }
    assert writes[..i] == writes;
  }

  lemma NoGrowth(t: Tree, r: map<nat, Role>, f: nat, d: seq<Block>)
    requires f in t.files
    ensures t == WithFile(t, f, t.files[f]) && RolesGrow(r, r, f)
    ensures FilesOf(d, t) == FilesOf(d, t)[f := Bytes(d, t.files[f])]
  {
  }

  lemma FileInFiles(d: seq<Block>, t: Tree, f: nat)
    requires f in t.files
    ensures f in FilesOf(d, t) && FilesOf(d, t)[f] == Bytes(d, t.files[f])
  {
  }

  lemma ChainWithin(t: Tree, f: nat, extent: nat)
    requires Sized(t) && f in t.files && t.files[f].size <= extent
    ensures |t.files[f].chain| <= FrameCount(extent)
  {
    hide FrameCount;
    FrameCountMonotone(t.files[f].size, extent);
  }

  /** A new file has three blocks. */
  lemma CreatedTakes(t: Tree, t2: Tree, i: nat, s: nat, f: nat, name: string)
    requires Created(t, t2, i, s, f, name)
    ensures Taken(t2.files[f]) == 3 && t2.files[f].size == 0 && |t2.files[f].chain| == 1
  {
    hide Missing;
    var file := t2.files[f];
    OnlyFirst(file, 1, FRAME_COUNT - 1);
    MissingSplit(file, 0, 1, FRAME_COUNT - 1);
    MissingSplit(file, 0, 0, 1);
    EntryAt(file, 0, 0);
    MissingStep(file, 0, 1);
    MissingStep(file, 1, 0);
  }

  lemma {:induction false} OnlyFirst(file: FileNode, from: nat, n: nat)
    requires |file.chain| == 1 && |file.chain[0].content| == FRAME_COUNT && 1 <= from && from + n == FRAME_COUNT
    requires forall k | 0 <= k < FRAME_COUNT :: file.chain[0].content[k] != 0 <==> k == 0
    ensures Missing(file, from, n) == n
    decreases n
  {
    if n != 0 {
      EntryAt(file, 0, from);
      OnlyFirst(file, from + 1, n - 1);
    }
  }

  /** Taking a file out of the slot into which it was put gives the old tree back. */
  lemma CreateRemove(t0: Tree, t1: Tree, t2: Tree, r: map<nat, Role>, i: nat, s: nat, f: nat, name: string)
    requires Created(t0, t1, i, s, f, name)
    requires RemovedFrom(t1, r, t2, f) && r[r[f].dir].idx == i && r[f].slot == s
    ensures t2 == t0
  {
    assert t2.dirs[i].slots == t0.dirs[i].slots;
    assert t2.dirs == t0.dirs;
    assert t2.files == t0.files;
  }

  /**
     Creating a file, writing to it any number of times, and removing it: the
     tree with all its slots, the roles of all blocks, the freemap and the
     contents of all files are what they were.
   */
  method CreateWriteRemove(fs: Sfs, dirname: string, name: string, writes: seq<Chunk>) returns (ghost content: seq<byte>)
    requires fs.Valid() && HasDir(fs.tree, dirname) && FileOf(fs.tree, dirname, name) == 0
    requires FirstFree(fs.tree, dirname) < NINODES && !fs.AllInUse()
    requires fs.Free() >= 1 + (FRAME_COUNT + 1) * FrameCount(Extent(writes))
    modifies fs.disk, fs.freemap, fs.fdtable, fs`tree, fs`roles, fs`spare, fs`log
    ensures fs.tree == old(fs.tree) && fs.roles == old(fs.roles) && fs.spare == old(fs.spare)
    ensures fs.freemap[..] == old(fs.freemap[..]) && fs.Free() == old(fs.Free())
    ensures fs.Files() == old(fs.Files())
    ensures content == Replay([], writes)
    ensures fs.Valid() && LogGrows(old(fs.log), fs.log)
  {
    hide Sfs.Valid, Sfs.Free, Sfs.Files, Sfs.FdBytes, FrameCount, Taken, LogGrows, Created, RemovedFrom, Without, SlotIndex, FirstFree;
    hide Sfs.AllInUse, FileOf, FindDir, HasDir, Extent, Replay, InodeOf;
    ghost var t0, r0, files0, sp := fs.tree, fs.roles, fs.Files(), fs.spare;
    ghost var was := Session.NowSound(fs);
    SameFree(fs, was);
    FrameCountMonotone(Extent(writes), Extent(writes));
    ghost var i, s;
    var fd;
    fd, i, s := OpenNew(fs, dirname, name);
    ghost var f, t1, log1, r1 := fs.fdtable[fd].inodeBid, fs.tree, fs.log, fs.roles;
    content := WriteRemove(fs, fd, writes);
    LogGrowsTrans(old(fs.log), log1, fs.log);
    CreateRemove(t0, t1, fs.tree, r1, i, s, f, name);
    ghost var now := Session.NowSound(fs);
    SameMap(was, t0, now, fs.tree, r0, sp);
    SameFree(fs, now);
    FilesRestored(files0, f, []);
  }

  /** Opening a file that is not there yet. */
  method OpenNew(fs: Sfs, dirname: string, name: string) returns (fd: int, ghost i: nat, ghost s: nat)
    requires fs.Valid() && HasDir(fs.tree, dirname) && FileOf(fs.tree, dirname, name) == 0
    requires FirstFree(fs.tree, dirname) < NINODES && !fs.AllInUse()
    requires fs.Free() >= 3
    modifies fs.disk, fs.freemap, fs.fdtable, fs`tree, fs`roles, fs`spare, fs`log
    ensures fs.LiveFd(fd) && InDirectory(fs.roles, fs.fdtable[fd].inodeBid, fs.fdtable[fd].dirBid)
    ensures var f := fs.fdtable[fd].inodeBid;
      && f !in old(fs.Files())
      && Created(old(fs.tree), fs.tree, i, s, f, name)
      && f in fs.roles && fs.roles[f].RInode? && fs.roles[f].dir in fs.roles
      && fs.roles[fs.roles[f].dir] == RDir(i) && fs.roles[f].slot == s
      && Without(fs.roles, f) == old(fs.roles)
      && fs.Files() == old(fs.Files())[f := []]
    ensures fs.FdFile(fd).size == 0 && Taken(fs.FdFile(fd)) == 3 && fs.FdBytes(fd) == []
    ensures fs.Free() == old(fs.Free()) - 3
    ensures fs.Valid() && LogGrows(old(fs.log), fs.log) && fs.spare == old(fs.spare)
  {
    hide Sfs.Stored, FrameCount, Taken, LogGrows, Named, Sized, FreeCount, MapOf, Created, Without, SlotIndex, FirstFree;
    ghost var t0 := fs.tree;
    i := FindDir(t0, dirname);
    HasDirIndex(t0, dirname);
    s := FirstFree(t0, dirname);
    fd := fs.Open(dirname, name);
    ghost var f := fs.fdtable[fd].inodeBid;
    Session.CreatedNew(t0, fs.tree, i, s, f, name);
    CreatedTakes(t0, fs.tree, i, s, f, name);
    CreatedDir(t0, fs.tree, i, s, f, name);
    EmptyBytes(fs.disk[..], fs.tree.files[f]);
    fs.DirFacts(i);
  }

  /** A file's last writes and its removal, seen from before the writes. */
  method WriteRemove(fs: Sfs, fd: int, writes: seq<Chunk>) returns (ghost content: seq<byte>)
    requires fs.Valid() && fs.LiveFd(fd) && InDirectory(fs.roles, fs.fdtable[fd].inodeBid, fs.fdtable[fd].dirBid)
    requires fs.FdFile(fd).size <= Extent(writes)
    requires fs.Free() + Taken(fs.FdFile(fd)) >= 1 + (FRAME_COUNT + 1) * FrameCount(Extent(writes))
    modifies fs.disk, fs.freemap, fs.fdtable, fs`tree, fs`roles, fs`spare, fs`log
    ensures RemovedFrom(old(fs.tree), old(fs.roles), fs.tree, old(fs.fdtable[fd].inodeBid))
    ensures fs.roles == Without(old(fs.roles), old(fs.fdtable[fd].inodeBid)) && fs.spare == old(fs.spare)
    ensures fs.Files() == old(fs.Files()) - {old(fs.fdtable[fd].inodeBid)}
    ensures content == Replay(old(fs.FdBytes(fd)), writes)
    ensures fs.Valid() && LogGrows(old(fs.log), fs.log)
  {
    hide Sfs.Stored, FrameCount, Taken, LogGrows, RolesGrow, Named, Sized, FilesOf, FreeCount, MapOf, RemovedFrom, Without;
    ghost var f, t1, r1, files1 := fs.fdtable[fd].inodeBid, fs.tree, fs.roles, fs.Files();
    NowPlaced(fs, f);
    WriteAll(fs, fd, writes);
    ghost var t2, r2, log2 := fs.tree, fs.roles, fs.log;
    content := fs.FdBytes(fd);
    FileInFiles(fs.disk[..], t2, f);
    GrownDirectory(r1, r2, f, fs.fdtable[fd].dirBid);
    RolesGrowWithout(r1, r2, f);
    var ret := fs.Remove(fd);
    LogGrowsTrans(old(fs.log), log2, fs.log);
    RemovedAlike(t1, t2, fs.tree, r1, r2, f);
    FilesRemoved(files1, f, content);
  }

  lemma GrownDirectory(r: map<nat, Role>, r2: map<nat, Role>, f: nat, dir: nat)
    requires RolesGrow(r, r2, f) && InDirectory(r, f, dir)
    ensures InDirectory(r2, f, dir)
  {
  }

  lemma NowPlaced(fs: Sfs, f: nat)
    requires fs.Stored() && f in fs.tree.files
    ensures f in fs.roles && fs.roles[f].RInode? && fs.roles[f].dir in fs.roles
  {
    hide Sound;
    var i, s := fs.RemovePlace(f);
  }

  lemma RemovedAlike(t1: Tree, t2: Tree, t3: Tree, r1: map<nat, Role>, r2: map<nat, Role>, f: nat)
    requires f in t1.files && f in t2.files && t2 == WithFile(t1, f, t2.files[f])
    requires RolesGrow(r1, r2, f) && f in r1 && r1[f].RInode? && r1[f].dir in r1
    requires RemovedFrom(t2, r2, t3, f)
    ensures RemovedFrom(t1, r1, t3, f)
  {
    assert t3.files == t1.files - {f};
  }

  lemma CreatedDir(t: Tree, t2: Tree, i: nat, s: nat, f: nat, name: string)
    requires Created(t, t2, i, s, f, name)
    ensures |t2.dirs| == |t.dirs| && t2.dirs[i].bid == t.dirs[i].bid
  {
  }

  lemma EmptyBytes(d: seq<Block>, file: FileNode)
    requires file.size == 0
    ensures Bytes(d, file) == []
  {
  }

  lemma SameFree(fs: Sfs, d: seq<Block>)
    requires d == fs.disk[..]
    ensures fs.Free() == FreeCount(MapOf(d))
  {
  }

  lemma FilesRestored(files: map<nat, seq<byte>>, f: nat, a: seq<byte>)
    requires f !in files
    ensures files[f := a] - {f} == files
  {
  }

  lemma FilesRemoved(files: map<nat, seq<byte>>, f: nat, a: seq<byte>)
    ensures files[f := a] - {f} == files - {f}
  {
  }

  /** The last directory's removal undoes its appending. */
  lemma AppendRemove(d: seq<Block>, t0: Tree, r0: map<nat, Role>, t1: Tree, r1: map<nat, Role>, b: nat, name: string)
    requires Consistent(d, t0, r0) && b !in r0
    requires t1 == t0.(dirs := t0.dirs + [DirNode(b, name, Zeros(NINODES))]) && r1 == r0[b := RDir(|t0.dirs|)]
    ensures RemovedDir(t1, r1, |t0.dirs|) == t0 && WithoutDir(r1, b, |t0.dirs|) == r0
    ensures Orphans(r1, b) == {}
  {
    hide Consistent;
    forall c | c in r0
      ensures !InDir(r1, c, b) && Shifted(r0[c], |t0.dirs|) == r0[c]
    {
      ElsewhereDir(d, t0, r0, c, r1, b);
    }
    forall f | f in t0.files
      ensures f in r0
    {
      FileFacts(d, t0, r0, f);
    }
    assert RemovedDir(t1, r1, |t0.dirs|).dirs == t0.dirs;
    assert RemovedDir(t1, r1, |t0.dirs|).files == t0.files;
    assert WithoutDir(r1, b, |t0.dirs|) == r0;
  }

  /** A block that had a place before the new directory is in none of its files. */
  lemma ElsewhereDir(d: seq<Block>, t: Tree, r: map<nat, Role>, c: nat, r1: map<nat, Role>, b: nat)
    requires Consistent(d, t, r) && c in r && b !in r && r1 == r[b := RDir(|t.dirs|)]
    ensures !InDir(r1, c, b) && Shifted(r[c], |t.dirs|) == r[c]
  {
    hide Holds;
    assert Home(t, r, c);
    match r[c]
    case RFrame(g, _) => InodeInDir(d, t, r, g);
    case RData(g, _, _) => InodeInDir(d, t, r, g);
    case _ =>
  }

  lemma InodeInDir(d: seq<Block>, t: Tree, r: map<nat, Role>, g: nat)
    requires Consistent(d, t, r) && g in t.files
    ensures g in r && r[g].RInode? && r[g].dir in r
  {
    hide Holds;
    assert FilePlaced(g, t.files[g], r);
    assert Home(t, r, g);
  }

  /** Making a directory of a new name and removing it: the listing, the freemap and all files are what they were. */
  method MakeRemoveDir(fs: Sfs, dirname: string)
    requires fs.Valid() && !HasDir(fs.tree, dirname) && fs.Free() > 0
    modifies fs, fs.disk, fs.freemap
    ensures fs.tree == old(fs.tree) && fs.roles == old(fs.roles) && fs.spare == old(fs.spare)
    ensures fs.freemap[..] == old(fs.freemap[..])
    ensures fs.Files() == old(fs.Files())
    ensures fs.Valid()
  {
    hide Sfs.Valid, Sfs.Files, Sfs.Free, Sound, Consistent, RemovedDir, WithoutDir, Orphans, Without, LogGrows, IsLeastFree;
    ghost var t0, r0, sp, files0 := fs.tree, fs.roles, fs.spare, fs.Files();
    ghost var was := Session.NowSound(fs);
    var made := fs.Mkdir(dirname);
    FileKeys(fs);
    ghost var t1, r1, b := fs.tree, fs.roles, LastDir(fs.tree).bid;
    SoundTree(was, t0, r0, sp);
    AppendRemove(was, t0, r0, t1, r1, b, dirname);
    LastFound(t0, t1, dirname, b);
    var removed := fs.Rmdir(dirname);
    ghost var now := Session.NowSound(fs);
    assert fs.spare == sp;
    SameMap(was, t0, now, fs.tree, r0, sp);
    FileKeys(fs);
    assert fs.Files() == files0;
  }

  lemma SoundTree(d: seq<Block>, t: Tree, r: map<nat, Role>, spare: set<nat>)
    requires Sound(d, t, r, spare)
    ensures Consistent(d, t, r)
  {
  }

  /** A directory of a new name is found where it was appended. */
  lemma LastFound(t0: Tree, t1: Tree, name: string, b: nat)
    requires !HasDir(t0, name) && t1.dirs == t0.dirs + [DirNode(b, name, Zeros(NINODES))]
    ensures HasDir(t1, name) && FindDir(t1, name) == |t0.dirs|
  {
    assert FindDir(t0, name) == |t0.dirs|;
    assert t1.dirs[|t0.dirs|].name == name;
  }

  lemma FileKeys(fs: Sfs)
    ensures fs.Files().Keys == fs.tree.files.Keys
  {
  }
}
