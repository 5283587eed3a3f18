/** Any sequence of operations on a mounted file system, against the abstract one. */
module Session {
  import opened AbstractFs
  import opened Bits
  import opened ByteFile
  import opened Chains
  import opened Contents
  import opened Effects
  import opened FileSystem
  import opened Layout
  import opened Lookup
  import opened Paths
  import opened Reachability
  import opened Steps
  import opened Store
  import opened Unlinks

  function Names(t: Tree): (s: seq<string>)
    ensures |s| == |t.dirs| && forall i | 0 <= i < |s| :: s[i] == t.dirs[i].name
  {
    seq(|t.dirs|, i requires 0 <= i < |t.dirs| => t.dirs[i].name)
  }

  /** The abstract files are the files of the tree, path by path. */
  ghost predicate ShowsFiles(files: map<Path, seq<byte>>, t: Tree, content: map<nat, seq<byte>>) {
    forall dir, name :: ShowsFile(files, t, content, dir, name)
  }

  ghost predicate ShowsFile(files: map<Path, seq<byte>>, t: Tree, content: map<nat, seq<byte>>, dir: string, name: string) {
    var f := FileOf(t, dir, name);
    if f == 0 then (dir, name) !in files
    else f in content && (dir, name) in files && files[(dir, name)] == content[f]
  }

  /** The abstract open files are the live descriptors. */
  ghost predicate ShowsFds(fds: map<int, OpenFile>, t: Tree, r: map<nat, Role>, live: seq<bool>, table: seq<Fd>) {
    && |live| == MAX_OPENED_FILES && |table| == MAX_OPENED_FILES
    && (forall k :: k in fds <==> 0 <= k < MAX_OPENED_FILES && live[k])
    && (forall k | k in fds :: ShowsFd(fds[k], t, r, table[k]))
  }

  ghost predicate ShowsFd(o: OpenFile, t: Tree, r: map<nat, Role>, fd: Fd) {
    && fd.valid != 0 && fd.cur == o.cur
    && fd.inodeBid != 0 && fd.inodeBid == FileOf(t, o.path.0, o.path.1)
    && InDirectory(r, fd.inodeBid, fd.dirBid)
  }

  /** The descriptors in use are the open and the stale ones. */
  ghost predicate ShowsBusy(a: Abs, table: seq<Fd>) {
    && |table| == MAX_OPENED_FILES
    && (forall k | 0 <= k < MAX_OPENED_FILES :: table[k].valid != 0 <==> Busy(a, k))
    && (forall k | Busy(a, k) :: 0 <= k < MAX_OPENED_FILES && !(k in a.fds && k in a.stale))
  }

  /** The first descriptor that is not in use, in the abstract and in the table. */
  lemma IdleIs(a: Abs, table: seq<Fd>, fd: int)
    requires ShowsBusy(a, table)
    ensures Sfs.IsFirstFd(table, fd) ==> !AllBusy(a) && FirstIdle(a, 0) == fd
    ensures (forall k | 0 <= k < MAX_OPENED_FILES :: table[k].valid != 0) <==> AllBusy(a)
  {
  }

  // ---- snapshots ----

  /** The file system between two operations: the disk, what it holds, and all images so far. */
  datatype Snapshot = Snapshot(d: seq<Block>, t: Tree, r: map<nat, Role>, log: seq<seq<Block>>)

  ghost function FreeOf(s: Snapshot): int {
    FreeCount(MapOf(s.d))
  }

  /** The blocks an operation takes. */
  ghost function Need(s: Snapshot, a: Abs, op: Op): int {
    match op
    case MkdirOp(dir) => if dir in a.dirs then 0 else 1
    case OpenOp(dir, name) => if AllBusy(a) || (dir, name) in a.files then 0 else 3
    case WriteOp(fd, bytes) => if fd in a.fds then WriteNeeds(FileAt(s.t, a.fds[fd].path), a.fds[fd].cur, |bytes|) else 0
    case ReadOp(fd, length) => if fd in a.fds then ReadNeeds(FileAt(s.t, a.fds[fd].path), a.fds[fd].cur, length) else 0
    case _ => 0
  }

  function FileAt(t: Tree, path: Path): FileNode {
    var f := FileOf(t, path.0, path.1);
    if f in t.files then t.files[f] else FileNode("", 0, [])
  }

  /** What becomes of the free blocks. */
  ghost predicate Paid(s: Snapshot, a: Abs, op: Op, reply: Reply, s2: Snapshot) {
    match op
    case RmdirOp(_) => FreeOf(s2) == FreeOf(s) + if reply == Done(0) then 1 else 0
    case RemoveOp(fd) => fd in a.fds && FreeOf(s2) == FreeOf(s) + Taken(FileAt(s.t, a.fds[fd].path))
    case _ => FreeOf(s2) == FreeOf(s) - Need(s, a, op)
  }

  /** All new images are safe; only a directory's removal adds two, of which the first is not. */
  ghost predicate Logged(s: Snapshot, op: Op, reply: Reply, s2: Snapshot) {
    if op.RmdirOp? && reply == Done(0)
    then exists window :: s2.log == s.log + [window, s2.d] && !SafeImage(window) && SafeImage(s2.d)
    else LogGrows(s.log, s2.log)
  }

  /** An operation is refused exactly if the caller may not ask for it, or the blocks it takes are not free; then nothing happens. */
  ghost predicate StepOk(s: Snapshot, a: Abs, op: Op, reply: Reply, s2: Snapshot) {
    && (reply.Refused? <==> MayRefuse(a, op) || FreeOf(s) < Need(s, a, op))
    && (if reply.Refused? then s2 == s else Paid(s, a, op, reply, s2) && Logged(s, op, reply, s2))
  }

  // ---- what each change of the tree is in the abstract ----

  lemma SameFiles(files: map<Path, seq<byte>>, t: Tree, t2: Tree, content: map<nat, seq<byte>>)
    requires ShowsFiles(files, t, content)
    requires forall dir, name :: FileOf(t2, dir, name) == FileOf(t, dir, name)
    ensures ShowsFiles(files, t2, content)
  {
    hide FileOf;
    forall dir, name
      ensures ShowsFile(files, t2, content, dir, name)
    {
      assert ShowsFile(files, t, content, dir, name);
    }
  }

  /** Different paths lead to different files. */
  lemma PathsDiffer(t: Tree, dir: string, name: string, dir2: string, name2: string)
    requires OnePlace(t) && FileOf(t, dir, name) == FileOf(t, dir2, name2) != 0
    ensures dir == dir2 && name == name2
  {
    FoundIsAt(t, dir, name);
    FoundIsAt(t, dir2, name2);
    var i, s :| IsAt(t, dir, name, i, s) && Slot(t, i, s) == FileOf(t, dir, name);
    var k, h :| IsAt(t, dir2, name2, k, h) && Slot(t, k, h) == FileOf(t, dir2, name2);
    assert t.dirs[i].slots[s] == t.dirs[k].slots[h];
  }

  lemma ShowsWrite(files: map<Path, seq<byte>>, t: Tree, t2: Tree, content: map<nat, seq<byte>>, f: nat, path: Path, bytes: seq<byte>)
    requires ShowsFiles(files, t, content) && OnePlace(t) && f != 0 && f == FileOf(t, path.0, path.1)
    requires forall dir, name :: FileOf(t2, dir, name) == FileOf(t, dir, name)
    ensures path in files && f in content && files[path] == content[f]
    ensures ShowsFiles(files[path := bytes], t2, content[f := bytes])
  {
    hide FileOf, OnePlace;
    assert ShowsFile(files, t, content, path.0, path.1);
    var files2, content2 := files[path := bytes], content[f := bytes];
    forall dir, name
      ensures ShowsFile(files2, t2, content2, dir, name)
    {
      assert ShowsFile(files, t, content, dir, name);
      if FileOf(t, dir, name) == f {
        PathsDiffer(t, dir, name, path.0, path.1);
      }
    }
  }

  lemma ShowsCreate(files: map<Path, seq<byte>>, t: Tree, t2: Tree, content: map<nat, seq<byte>>, f: nat, path: Path)
    requires ShowsFiles(files, t, content) && f != 0 && f !in content && FileOf(t, path.0, path.1) == 0
    requires forall dir, name :: FileOf(t2, dir, name) == if (dir, name) == path then f else FileOf(t, dir, name)
    ensures path !in files
    ensures ShowsFiles(files[path := []], t2, content[f := []])
  {
    hide FileOf;
    assert ShowsFile(files, t, content, path.0, path.1);
    var files2, content2 := files[path := []], content[f := []];
    forall dir, name
      ensures ShowsFile(files2, t2, content2, dir, name)
    {
      assert ShowsFile(files, t, content, dir, name);
    }
  }

  lemma ShowsRemove(files: map<Path, seq<byte>>, t: Tree, t2: Tree, content: map<nat, seq<byte>>, f: nat, path: Path)
    requires ShowsFiles(files, t, content) && OnePlace(t) && f != 0 && f == FileOf(t, path.0, path.1)
    requires forall dir, name :: FileOf(t2, dir, name) == if (dir, name) == path then 0 else FileOf(t, dir, name)
    ensures ShowsFiles(files - {path}, t2, content - {f})
  {
    hide FileOf, OnePlace;
    var files2, content2 := files - {path}, content - {f};
    forall dir, name
      ensures ShowsFile(files2, t2, content2, dir, name)
    {
      assert ShowsFile(files, t, content, dir, name);
      if FileOf(t, dir, name) == f {
        PathsDiffer(t, dir, name, path.0, path.1);
      }
    }
  }

  /** Descriptors stay as they are when look-ups and the roles of inodes do. */
  lemma SameFds(fds: map<int, OpenFile>, t: Tree, t2: Tree, r: map<nat, Role>, r2: map<nat, Role>, live: seq<bool>, table: seq<Fd>)
    requires ShowsFds(fds, t, r, live, table)
    requires forall dir, name :: FileOf(t2, dir, name) == FileOf(t, dir, name)
    requires forall f | f in r && r[f].RInode? && f != 0 && (exists k :: k in fds && table[k].inodeBid == f) :: f in r2 && r2[f] == r[f]
    ensures ShowsFds(fds, t2, r2, live, table)
  {
    hide FileOf;
    forall k | k in fds
      ensures ShowsFd(fds[k], t2, r2, table[k])
    {
      assert ShowsFd(fds[k], t, r, table[k]);
    }
  }

  /** No slot of the tree shares its file with another slot. */
  lemma PlacesAreOne(d: seq<Block>, t: Tree, r: map<nat, Role>)
    requires Consistent(d, t, r)
    ensures OnePlace(t)
  {
    hide Consistent, AsDir;
    forall i, s, k, h | 0 <= i < |t.dirs| && 0 <= s < |t.dirs[i].slots| && 0 <= k < |t.dirs| && 0 <= h < |t.dirs[k].slots|
                        && t.dirs[i].slots[s] == t.dirs[k].slots[h] != 0
      ensures i == k && s == h
    {
      DirBlockFacts(d, t, r, i);
      DirBlockFacts(d, t, r, k);
    }
  }

  /** What a mounted file system says of all its paths. */
  lemma PathFacts(fs: Sfs)
    requires fs.Valid()
    ensures OnePlace(fs.tree) && SlotsAreFiles(fs.tree) && RolesAreOfFiles(fs.tree, fs.roles) && Named(fs.tree)
    ensures fs.Shaped() && fs.Stored() && fs.Mounted() && fs.Files().Keys == fs.tree.files.Keys
  {
    hide Sound, Named, Sized, Consistent, Marked;
    fs.NowConsistent();
    PlacesAreOne(fs.disk[..], fs.tree, fs.roles);
    fs.AllKnown();
  }

  lemma HasDirName(t: Tree, dir: string)
    ensures HasDir(t, dir) <==> dir in Names(t)
  {
    if HasDir(t, dir) {
      assert Names(t)[FindDir(t, dir)] == dir;
    }
  }

  lemma EmptyShows(fs: Sfs)
    requires fs.tree == Tree([], map[])
    ensures Named(fs.tree) && Sized(fs.tree) && Names(fs.tree) == []
    ensures ShowsFiles(map[], fs.tree, fs.Files())
  {
    forall dir, name
      ensures ShowsFile(map[], fs.tree, fs.Files(), dir, name)
    {
      assert FindDir(fs.tree, dir) == 0;
    }
  }

  /**
   A careful user of one file system, who keeps track of the descriptors that may
   be used, and finds out before a call whether the blocks it takes are free.
   */
  class Shell {
    const fs: Sfs
    var live: seq<bool>
    ghost var abs: Abs

    ghost predicate Valid()
      reads this, fs, fs.disk, fs.freemap, fs.fdtable
    {
      && fs.Valid()
      && abs.dirs == Names(fs.tree)
      && ShowsFiles(abs.files, fs.tree, fs.Files())
      && ShowsFds(abs.fds, fs.tree, fs.roles, live, fs.fdtable[..])
      && ShowsBusy(abs, fs.fdtable[..])
    }

    ghost function Now(): Snapshot
      reads this, fs, fs.disk
    {
      Snapshot(fs.disk[..], fs.tree, fs.roles, fs.log)
    }

    /** A new file system, made and mounted. */
    constructor ()
      ensures Valid() && abs == Abs([], map[], map[], {}) && fs.spare == {} && fs.tree == Tree([], map[])
      ensures fresh(fs) && fresh(fs.disk) && fresh(fs.freemap) && fresh(fs.fdtable)
    {
      hide Sound, Named, Sized, ShowsFiles, FilesOf, Marked, FreeCount, MapOf;
      var made := new Sfs();
      fs := made;
      live := seq(MAX_OPENED_FILES, _ => false);
      abs := Abs([], map[], map[], {});
      new;
      var ret := fs.Mkfs();
      fs.PrintInfo();
      EmptyShows(fs);
    }

    /** sfs_mkdir; refused exactly when a block is needed and none is free. */
    method Mkdir(dir: string) returns (reply: Reply)
      requires Valid()
      modifies this, fs, fs.disk, fs.freemap
      ensures Valid() && fs.spare == old(fs.spare)
      ensures abs == Apply(old(abs), MkdirOp(dir), reply) && Right(old(abs), MkdirOp(dir), reply)
      ensures StepOk(old(Now()), old(abs), MkdirOp(dir), reply, Now())
      ensures reply.Refused? <==> dir !in old(abs).dirs && old(FreeOf(Now())) == 0
      ensures !reply.Refused? ==> abs.dirs == if dir in old(abs).dirs then old(abs).dirs else old(abs).dirs + [dir]
      ensures fs.tree.files == old(fs.tree.files)
    {
      hide Sfs.Stored, LogGrows, Named, Sized, FilesOf, FreeCount, MapOf, HasDir, IsLeastFree, FileOf, Busy, ShowsFiles, ShowsFds;
      HasDirName(fs.tree, dir);
      FreeNow(fs);
      var bid := fs.FindDirBlock(dir);
      NoLog(fs.log);
      if bid == 0 && FreeCount(fs.freemap[..]) == 0 {
        return Refused;
      }
      ghost var t0, r0 := fs.tree, fs.roles;
      PathFacts(fs);
      var ret := fs.Mkdir(dir);
      if bid == 0 {
        NewDirShows(t0, fs.tree, r0, fs.roles, LastDir(fs.tree).bid, dir, abs, fs.Files(), live, fs.fdtable[..]);
        ghost var a0 := abs;
        abs := abs.(dirs := abs.dirs + [dir]);
        BusyStays(a0, abs, fs.fdtable[..]);
      }
      reply := Done(ret);
    }

    /** sfs_rmdir; refused exactly for a directory that holds files. */
    method Rmdir(dir: string) returns (reply: Reply)
      requires Valid()
      modifies this, fs, fs.disk, fs.freemap
      ensures Valid() && fs.spare == old(fs.spare)
      ensures abs == Apply(old(abs), RmdirOp(dir), reply) && Right(old(abs), RmdirOp(dir), reply)
      ensures StepOk(old(Now()), old(abs), RmdirOp(dir), reply, Now())
    {
      hide Sfs.Valid, Sfs.Stored, Sfs.Files, FilesOf, Named, HasDir, FileOf, ShowsFiles, ShowsFds, ShowsBusy, AllFree, OnePlace, SlotsAreFiles, RolesAreOfFiles, WithoutName, FilesIn, FreeCount, SafeImage;
      HasDirName(fs.tree, dir);
      PathFacts(fs);
      FreeNow(fs);
      SomeFileIn(abs, dir);
      NoLog(fs.log);
      ghost var i := FindDir(fs.tree, dir);
      var bid := fs.FindDirBlock(dir);
      if bid == 0 {
        NoSuchDir(abs, fs.tree, dir, fs.Files());
        reply := RmdirMissing(dir);
        return;
      }
      HasDirIndex(fs.tree, dir);
      fs.DirFacts(i);
      var slots := AsDir(fs.disk[bid]).inodes;
      DirInUse(abs, fs.tree, dir, i, fs.Files());
      if !AllFree(slots) {
        return Refused;
      }
      reply := RmdirEmpty(dir, i);
    }

    method RmdirMissing(dir: string) returns (reply: Reply)
      requires Valid() && !HasDir(fs.tree, dir)
      modifies this, fs, fs.disk, fs.freemap
      ensures Valid() && fs.spare == old(fs.spare) && reply == Done(-1) && Now() == old(Now())
      ensures abs == Apply(old(abs), RmdirOp(dir), reply)
    {
      hide Sfs.Valid, Sfs.Stored, Sfs.Files, Sfs.Free, FilesOf, HasDir, ShowsFiles, ShowsFds, ShowsBusy, WithoutName;
      HasDirName(fs.tree, dir);
      PathFacts(fs);
      FilesAre(fs);
      var ret := fs.Rmdir(dir);
      PathFacts(fs);
      FilesAre(fs);
      RemoveNothing(abs.dirs, dir);
      return Done(ret);
    }

    method RmdirEmpty(dir: string, ghost i: nat) returns (reply: Reply)
      requires Valid() && HasDir(fs.tree, dir) && i == FindDir(fs.tree, dir) && AllFree(fs.tree.dirs[i].slots)
      modifies this, fs, fs.disk, fs.freemap
      ensures Valid() && fs.spare == old(fs.spare) && reply == Done(0) && FreeOf(Now()) == old(FreeOf(Now())) + 1
      ensures abs == Apply(old(abs), RmdirOp(dir), reply)
      ensures exists window :: fs.log == old(fs.log) + [window, fs.disk[..]] && !SafeImage(window) && SafeImage(fs.disk[..])
    {
      hide Consistent, Sfs.Valid, Sfs.Stored, Sfs.Mounted, Sfs.Files, FilesOf, Named, HasDir, FileOf, ShowsFiles, ShowsFds, Busy, AllFree, RemovedDir, WithoutDir, Orphans, SafeImage, WithoutName, OnePlace, SlotsAreFiles, RolesAreOfFiles;
      PathFacts(fs);
      HasDirIndex(fs.tree, dir);
      fs.DirFacts(i);
      fs.NowConsistent();
      OrphansOfEmpty(fs.disk[..], fs.tree, fs.roles, i);
      ghost var t0, r0, files0 := fs.tree, fs.roles, fs.Files();
      var ret := fs.Rmdir(dir);
      PathFacts(fs);
      GoneDirShows(t0, fs.tree, r0, fs.roles, i, dir, abs, files0, fs.Files(), live, fs.fdtable[..]);
      ghost var a0 := abs;
      abs := abs.(dirs := WithoutName(abs.dirs, dir));
      BusyStays(a0, abs, fs.fdtable[..]);
      reply := Done(ret);
    }

    /** sfs_open; with a descriptor free, refused exactly when the directory is missing, or a new file finds no slot or too few blocks. */
    method Open(dir: string, name: string) returns (reply: Reply)
      requires Valid()
      modifies this, fs, fs.disk, fs.freemap, fs.fdtable
      ensures Valid() && fs.spare == old(fs.spare)
      ensures abs == Apply(old(abs), OpenOp(dir, name), reply) && Right(old(abs), OpenOp(dir, name), reply)
      ensures StepOk(old(Now()), old(abs), OpenOp(dir, name), reply, Now())
      ensures fs.tree.dirs == old(fs.tree.dirs) || |fs.tree.dirs| == |old(fs.tree.dirs)|
      ensures forall f | f in fs.tree.files ::
        (f in old(fs.tree.files) && fs.tree.files[f] == old(fs.tree.files)[f]) || JustCreated(fs.tree.files[f])
    {
      hide Sfs.Valid, Sfs.Stored, Sfs.Files, FilesOf, LogGrows, Named, FreeCount, MapOf, HasDir, FileOf, FirstFree, FreeSlot, ShowsFiles, ShowsFds, ShowsBusy, AllBusy, Created, Without, OnePlace, SlotsAreFiles, RolesAreOfFiles, FilesIn, JustCreated;
      HasDirName(fs.tree, dir);
      PathFacts(fs);
      FreeNow(fs);
      IdleIs(abs, fs.fdtable[..], -1);
      PathShown(abs, fs.tree, fs.Files(), dir, name);
      var idle := fs.FreeFd();
      if idle == -1 {
        reply := OpenNow(dir, name);
        return;
      }
      ghost var i := FindDir(fs.tree, dir);
      var bid := fs.FindDirBlock(dir);
      if bid == 0 {
        return Refused;
      }
      HasDirIndex(fs.tree, dir);
      fs.DirFacts(i);
      var found, inodeBid, freeInode := fs.ScanSlots(bid, name, i);
      FileOfSlots(fs.tree, dir, name);
      FirstFreeIs(fs.tree, dir);
      FullDirectory(abs, fs.tree, dir, i, fs.Files());
      if !found && (freeInode == -1 || FreeCount(fs.freemap[..]) < 3) {
        return Refused;
      }
      reply := OpenNow(dir, name);
    }

    method OpenNow(dir: string, name: string) returns (reply: Reply)
      requires Valid() && (!fs.AllInUse() ==> fs.CanOpen(dir, name))
      modifies this, fs, fs.disk, fs.freemap, fs.fdtable
      ensures Valid() && fs.spare == old(fs.spare) && LogGrows(old(fs.log), fs.log)
      ensures abs == Apply(old(abs), OpenOp(dir, name), reply) && Right(old(abs), OpenOp(dir, name), reply) && !reply.Refused?
      ensures FreeOf(Now()) == old(FreeOf(Now())) - old(Need(Now(), abs, OpenOp(dir, name)))
      ensures fs.tree.dirs == old(fs.tree.dirs) || |fs.tree.dirs| == |old(fs.tree.dirs)|
      ensures forall f | f in fs.tree.files ::
        (f in old(fs.tree.files) && fs.tree.files[f] == old(fs.tree.files)[f]) || JustCreated(fs.tree.files[f])
    {
      hide Sfs.Valid, Sfs.Stored, Sfs.Files, FilesOf, LogGrows, Named, FreeCount, MapOf, HasDir, FileOf, FirstFree, ShowsFiles, ShowsFds, Busy, AllBusy, FirstIdle, Created, Without, OnePlace, SlotsAreFiles, RolesAreOfFiles, JustCreated;
      PathFacts(fs);
      HasDirName(fs.tree, dir);
      if HasDir(fs.tree, dir) {
        HasDirIndex(fs.tree, dir);
      }
      PathShown(abs, fs.tree, fs.Files(), dir, name);
      ghost var t0, r0, files0, i, a0 := fs.tree, fs.roles, fs.Files(), FindDir(fs.tree, dir), abs;
      ghost var table0 := fs.fdtable[..];
      LiveLength(abs.fds, t0, r0, live, table0);
      FilesAre(fs);
      var fd := fs.Open(dir, name);
      PathFacts(fs);
      reply := Done(fd);
      FilesAre(fs);
      IdleIs(a0, table0, fd);
      if fd == -1 {
        return;
      }
      if FileOf(t0, dir, name) == 0 {
        CreatedNew(t0, fs.tree, i, FirstFree(t0, dir), fs.fdtable[fd].inodeBid, name);
        NewFileShows(t0, fs.tree, r0, fs.roles, i, FirstFree(t0, dir), fs.fdtable[fd].inodeBid, (dir, name), abs, files0, live, table0);
        CreatedOnly(t0, fs.tree, i, FirstFree(t0, dir), fs.fdtable[fd].inodeBid, name);
        abs := abs.(files := abs.files[(dir, name) := []]);
      }
      OpenedShows(abs.fds, fs.tree, fs.roles, live, table0, fs.fdtable[..], fd, OpenFile((dir, name), 0));
      live := live[fd := true];
      abs := abs.(fds := abs.fds[fd := OpenFile((dir, name), 0)]);
      BusyMore(a0, abs, table0, fs.fdtable[..], fd);
    }

    /** sfs_close, also of a descriptor whose file has been removed or that is not in use; refused exactly outside the table. */
    method Close(fd: int) returns (reply: Reply)
      requires Valid()
      modifies this, fs.fdtable
      ensures Valid()
      ensures abs == Apply(old(abs), CloseOp(fd), reply) && Right(old(abs), CloseOp(fd), reply)
      ensures StepOk(old(Now()), old(abs), CloseOp(fd), reply, Now())
    {
      hide Sfs.Stored, Sfs.Files, Sfs.Mounted, Named, Sized, FileOf, ShowsFiles, InDirectory, Busy, FreeCount;
      FreeNow(fs);
      NoLog(fs.log);
      if !(0 <= fd < MAX_OPENED_FILES) {
        return Refused;
      }
      ghost var table0, a0 := fs.fdtable[..], abs;
      PathFacts(fs);
      var ret := fs.Close(fd);
      ClosedShows(abs.fds, fs.tree, fs.roles, live, table0, fs.fdtable[..], fd);
      live := live[fd := false];
      abs := abs.(fds := abs.fds - {fd}, stale := abs.stale - {fd});
      BusyLess(a0, abs, table0, fs.fdtable[..], fd);
      reply := Done(ret);
    }

    /** sfs_seek; refused exactly for a descriptor that is not open. */
    method Seek(fd: int, relative: int, loc: Whence) returns (reply: Reply)
      requires Valid()
      modifies this, fs.fdtable
      ensures Valid()
      ensures abs == Apply(old(abs), SeekOp(fd, relative, loc), reply) && Right(old(abs), SeekOp(fd, relative, loc), reply)
      ensures StepOk(old(Now()), old(abs), SeekOp(fd, relative, loc), reply, Now())
      ensures reply.Refused? <==> fd !in old(abs).fds
      ensures !reply.Refused? ==> fd in abs.fds && old(abs).fds[fd].path in abs.files
      ensures !reply.Refused? ==> var o := old(abs).fds[fd];
        var base := match loc case SeekSet => 0 case SeekCur => o.cur case SeekEnd => |abs.files[o.path]|;
        abs.fds[fd] == OpenFile(o.path, if base + relative < 0 then 0 else base + relative)
    {
      hide Sfs.Valid, Sfs.Stored, Sfs.Files, FilesOf, FileOf, ShowsFiles, ShowsFds, Busy, OnePlace, SlotsAreFiles, RolesAreOfFiles, FreeCount;
      OpenFds(abs.fds, fs.tree, fs.roles, live, fs.fdtable[..]);
      FreeNow(fs);
      NoLog(fs.log);
      if !(0 <= fd < MAX_OPENED_FILES && live[fd]) {
        return Refused;
      }
      LiveFacts(fs, abs, live, fd);
      FilesAre(fs);
      ghost var table0, o, a0 := fs.fdtable[..], abs.fds[fd], abs;
      var ret := fs.Seek(fd, relative, loc);
      PathFacts(fs);
      FilesAre(fs);
      ghost var o2 := o.(cur := Target(abs, fd, relative, loc));
      MovedShows(abs.fds, fs.tree, fs.roles, fs.roles, live, table0, fs.fdtable[..], fd, o2);
      abs := abs.(fds := abs.fds[fd := o2]);
      BusySame(a0, abs, table0, fs.fdtable[..]);
      reply := Done(ret);
    }

    // ---- what a write or a read will take ----

    /** How many of the n entries from number a on lie in the chain and are unset. */
    method CountMissing(fd: int, a: nat, n: nat) returns (m: nat)
      requires fs.Valid() && fs.LiveFd(fd)
      ensures m == Missing(fs.FdFile(fd), a, n)
    {
      hide Sfs.Stored, Named, Sized, Missing, Entry, AsFrame;
      ghost var file := fs.FdFile(fd);
      m := 0;
      var i := 0;
      MissingZero(file, a, n);
      while i < n
        invariant i <= n && m + Missing(file, a + i, n - i) == Missing(file, a, n)
      {
        var bid;
        ghost var j;
        bid, j := fs.SkipFrames(fd, (a + i) / FRAME_COUNT);
        MissingZero(file, a + i, n - i);
        if bid != 0 {
          fs.FrameBlockFacts(fs.fdtable[fd].inodeBid, j);
          EntryOf(file, a + i);
          if AsFrame(fs.disk[bid]).content[(a + i) % FRAME_COUNT] == 0 {
            m := m + 1;
          }
        }
        i := i + 1;
      }
      MissingZero(file, a + n, 0);
    }

    method CountWrite(fd: int, length: nat) returns (n: int)
      requires fs.Valid() && fs.LiveFd(fd)
      ensures n == WriteNeeds(fs.FdFile(fd), fs.fdtable[fd].cur, length)
    {
      hide Sfs.Stored, Named, Missing, FrameCount, AsInode;
      fs.InodeBlockFacts(fs.fdtable[fd].inodeBid);
      ChainIsSized(fs.tree, fs.fdtable[fd].inodeBid);
      var size, cur := AsInode(fs.disk[fs.fdtable[fd].inodeBid]).inode.size, fs.fdtable[fd].cur;
      var m := CountMissing(fd, cur / BLOCK_SIZE, (cur + length) / BLOCK_SIZE - cur / BLOCK_SIZE + 1);
      n := (FRAME_COUNT + 1) * (Max(FrameCount(size), FrameCount(cur + length)) - FrameCount(size)) + m;
    }

    method CountRead(fd: int, length: nat) returns (n: int)
      requires fs.Valid() && fs.LiveFd(fd)
      ensures n == ReadNeeds(fs.FdFile(fd), fs.fdtable[fd].cur, length)
    {
      hide Sfs.Stored, Named, Sized, Missing, AsInode;
      fs.InodeBlockFacts(fs.fdtable[fd].inodeBid);
      var size, cur := AsInode(fs.disk[fs.fdtable[fd].inodeBid]).inode.size, fs.fdtable[fd].cur;
      var got := ReadLength(size, cur, length);
      n := CountMissing(fd, cur / BLOCK_SIZE, (cur + got) / BLOCK_SIZE - cur / BLOCK_SIZE + 1);
    }

    /** sfs_write; refused exactly for a descriptor that is not open, or when the blocks it takes are not free. */
    method Write(fd: int, bytes: seq<byte>) returns (reply: Reply)
      requires Valid()
      modifies this, fs, fs.disk, fs.freemap, fs.fdtable
      ensures Valid() && fs.spare == old(fs.spare)
      ensures abs == Apply(old(abs), WriteOp(fd, bytes), reply) && Right(old(abs), WriteOp(fd, bytes), reply)
      ensures StepOk(old(Now()), old(abs), WriteOp(fd, bytes), reply, Now())
      ensures !reply.Refused? ==> fd in old(abs).fds && var cur := old(abs).fds[fd].cur; OneFileGrows(old(fs.tree), fs.tree, cur, cur + |bytes|, cur + |bytes|)
    {
      hide Sfs.Valid, Sfs.Stored, Sfs.Files, Sfs.Free, Sfs.LiveFd, FilesOf, FileOf, ShowsFiles, ShowsFds, ShowsBusy, Busy, Overwrite, LogGrows, FreeCount, WriteNeeds, OneFileGrows;
      OpenFds(abs.fds, fs.tree, fs.roles, live, fs.fdtable[..]);
      PathFacts(fs);
      FreeNow(fs);
      FilesAre(fs);
      if !(0 <= fd < MAX_OPENED_FILES && live[fd]) {
        return Refused;
      }
      LiveFacts(fs, abs, live, fd);
      FileAtIs(fs.tree, abs.fds[fd].path);
      var needs := CountWrite(fd, |bytes|);
      if FreeCount(fs.freemap[..]) < needs {
        return Refused;
      }
      reply := WriteNow(fd, bytes);
      FilesAre(fs);
    }

    method WriteNow(fd: int, bytes: seq<byte>) returns (reply: Reply)
      requires Valid() && 0 <= fd < |live| && live[fd] && fd in abs.fds && fs.LiveFd(fd) && abs.fds[fd].cur == fs.fdtable[fd].cur
      requires fs.Free() >= WriteNeeds(fs.FdFile(fd), fs.fdtable[fd].cur, |bytes|)
      modifies this, fs, fs.disk, fs.freemap, fs.fdtable
      ensures Valid() && fs.spare == old(fs.spare) && LogGrows(old(fs.log), fs.log)
      ensures reply == Done(|bytes|) && abs == Apply(old(abs), WriteOp(fd, bytes), reply)
      ensures fs.Free() == old(fs.Free()) - old(WriteNeeds(fs.FdFile(fd), abs.fds[fd].cur, |bytes|))
      ensures var cur := old(abs).fds[fd].cur; OneFileGrows(old(fs.tree), fs.tree, cur, cur + |bytes|, cur + |bytes|)
    {
      hide Sfs.Valid, Sfs.Stored, Sfs.Files, Sfs.Free, FilesOf, FileOf, ShowsFiles, ShowsFds, Busy, OnePlace, SlotsAreFiles, RolesAreOfFiles;
      hide LogGrows, FreeCount, WriteNeeds, Reserved, OnlyIn, RolesGrow, Taken, Overwrite, OneFileGrows;
      OpenFds(abs.fds, fs.tree, fs.roles, live, fs.fdtable[..]);
      PathFacts(fs);
      LiveFacts(fs, abs, live, fd);
      ghost var table0, o, f, t0, r0, file0, a0 := fs.fdtable[..], abs.fds[fd], fs.fdtable[fd].inodeBid, fs.tree, fs.roles, fs.FdFile(fd), abs;
      ghost var content0 := fs.Files();
      FileInPlace(fs, f);
      var ret := fs.Write(fd, bytes);
      PathFacts(fs);
      ReservedSize(file0, fs.FdFile(fd), o.cur, |bytes|);
      RowsNow(fs, f);
      GrowsIs(t0, fs.tree, f, o.cur, |bytes|);
      SameLookups(t0, fs.tree, f);
      ShowsWrite(abs.files, t0, fs.tree, content0, f, o.path, Overwrite(content0[f], o.cur, bytes));
      SameDirsNames(t0, fs.tree);
      ghost var o2 := o.(cur := o.cur + |bytes|);
      GrownFds(abs.fds, t0, fs.tree, r0, fs.roles, live, table0, f);
      MovedShows(abs.fds, fs.tree, fs.roles, fs.roles, live, table0, fs.fdtable[..], fd, o2);
      abs := abs.(files := abs.files[o.path := Overwrite(abs.files[o.path], o.cur, bytes)], fds := abs.fds[fd := o2]);
      BusySame(a0, abs, table0, fs.fdtable[..]);
      reply := Done(ret);
    }

    /** sfs_read; refused exactly for a descriptor that is not open, or when the blocks it takes for unset entries are not free. */
    method Read(fd: int, length: nat) returns (reply: Reply)
      requires Valid()
      modifies this, fs, fs.disk, fs.freemap, fs.fdtable
      ensures Valid() && fs.spare == old(fs.spare)
      ensures abs == Apply(old(abs), ReadOp(fd, length), reply) && Right(old(abs), ReadOp(fd, length), reply)
      ensures StepOk(old(Now()), old(abs), ReadOp(fd, length), reply, Now())
      ensures !reply.Refused? ==> fd in old(abs).fds && old(abs).fds[fd].path in old(abs).files
      ensures !reply.Refused? ==> var o := old(abs).fds[fd]; var s := old(abs).files[o.path];
        reply == Got(if o.cur >= |s| then [] else if o.cur + length >= |s| then s[o.cur..] else s[o.cur..o.cur + length])
      ensures !reply.Refused? ==> fd in old(abs).fds && var cur := old(abs).fds[fd].cur; OneFileGrows(old(fs.tree), fs.tree, cur, cur + length, 0)
    {
      hide Sfs.Valid, Sfs.Stored, Sfs.Files, Sfs.Free, Sfs.LiveFd, FilesOf, FileOf, ShowsFiles, ShowsFds, ShowsBusy, Busy, Overwrite, LogGrows, FreeCount, ReadNeeds, ReadAt, OneFileGrows;
      OpenFds(abs.fds, fs.tree, fs.roles, live, fs.fdtable[..]);
      PathFacts(fs);
      FreeNow(fs);
      FilesAre(fs);
      if !(0 <= fd < MAX_OPENED_FILES && live[fd]) {
        return Refused;
      }
      LiveFacts(fs, abs, live, fd);
      FileAtIs(fs.tree, abs.fds[fd].path);
      var needs := CountRead(fd, length);
      if FreeCount(fs.freemap[..]) < needs {
        return Refused;
      }
      ReadGives(abs.files[abs.fds[fd].path], abs.fds[fd].cur, length);
      reply := ReadNow(fd, length);
      FilesAre(fs);
    }

    method ReadNow(fd: int, length: nat) returns (reply: Reply)
      requires Valid() && 0 <= fd < |live| && live[fd] && fd in abs.fds && fs.LiveFd(fd) && abs.fds[fd].cur == fs.fdtable[fd].cur
      requires abs.fds[fd].path in abs.files
      requires fs.Free() >= ReadNeeds(fs.FdFile(fd), fs.fdtable[fd].cur, length)
      modifies this, fs, fs.disk, fs.freemap, fs.fdtable
      ensures Valid() && fs.spare == old(fs.spare) && LogGrows(old(fs.log), fs.log)
      ensures reply == Got(ReadAt(old(abs).files[old(abs).fds[fd].path], old(abs).fds[fd].cur, length))
      ensures abs == Apply(old(abs), ReadOp(fd, length), reply)
      ensures fs.Free() == old(fs.Free()) - old(ReadNeeds(fs.FdFile(fd), abs.fds[fd].cur, length))
      ensures var cur := old(abs).fds[fd].cur; OneFileGrows(old(fs.tree), fs.tree, cur, cur + length, 0)
    {
      hide Sfs.Valid, Sfs.Stored, Sfs.Files, Sfs.Free, FilesOf, FileOf, ShowsFiles, ShowsFds, Busy, OnePlace, SlotsAreFiles, RolesAreOfFiles;
      hide LogGrows, FreeCount, ReadNeeds, Reserved, OnlyIn, RolesGrow, Taken, ReadAt, OneFileGrows;
      OpenFds(abs.fds, fs.tree, fs.roles, live, fs.fdtable[..]);
      PathFacts(fs);
      LiveFacts(fs, abs, live, fd);
      ghost var table0, o, f, t0, r0, file0, a0 := fs.fdtable[..], abs.fds[fd], fs.fdtable[fd].inodeBid, fs.tree, fs.roles, fs.FdFile(fd), abs;
      var buf := new byte[length];
      var ret := fs.Read(fd, buf, length);
      PathFacts(fs);
      ReservedSize(file0, fs.FdFile(fd), 0, 0);
      RowsNow(fs, f);
      ReadGrowsIs(t0, fs.tree, f, o.cur, ret, length);
      SameLookups(t0, fs.tree, f);
      SameFiles(abs.files, t0, fs.tree, fs.Files());
      SameDirsNames(t0, fs.tree);
      ghost var o2 := o.(cur := o.cur + ret);
      GrownFds(abs.fds, t0, fs.tree, r0, fs.roles, live, table0, f);
      MovedShows(abs.fds, fs.tree, fs.roles, fs.roles, live, table0, fs.fdtable[..], fd, o2);
      reply := Got(buf[..ret]);
      abs := abs.(fds := abs.fds[fd := o2]);
      BusySame(a0, abs, table0, fs.fdtable[..]);
    }

    /** sfs_remove; refused exactly for a descriptor that is not open. Afterwards the file's descriptors can only be closed. */
    method Remove(fd: int) returns (reply: Reply)
      requires Valid()
      modifies this, fs, fs.disk, fs.freemap
      ensures Valid() && fs.spare == old(fs.spare)
      ensures abs == Apply(old(abs), RemoveOp(fd), reply) && Right(old(abs), RemoveOp(fd), reply)
      ensures StepOk(old(Now()), old(abs), RemoveOp(fd), reply, Now())
    {
      hide Sfs.Valid, Sfs.Stored, Sfs.Files, Sfs.Free, FilesOf, FileOf, ShowsFiles, ShowsFds, Busy, OnePlace, SlotsAreFiles, RolesAreOfFiles;
      hide LogGrows, RemovedFrom, Without, Named, Sound, FreeCount, MapOf, Taken;
      OpenFds(abs.fds, fs.tree, fs.roles, live, fs.fdtable[..]);
      PathFacts(fs);
      FreeNow(fs);
      FilesAre(fs);
      if !(0 <= fd < MAX_OPENED_FILES && live[fd]) {
        return Refused;
      }
      LiveFacts(fs, abs, live, fd);
      ghost var o, f, t0, r0, content0, a0 := abs.fds[fd], fs.fdtable[fd].inodeBid, fs.tree, fs.roles, fs.Files(), abs;
      var inodeBid := fs.fdtable[fd].inodeBid;
      ghost var d0 := NowSound(fs);
      var ret := fs.Remove(fd);
      PathFacts(fs);
      ghost var d := NowSound(fs);
      FileAtIs(t0, o.path);
      RemovalFrees(d0, t0, r0, d, fs.tree, fs.spare, f);
      RemovedPaths(t0, fs.tree, r0, f, o.path);
      ShowsRemove(abs.files, t0, fs.tree, content0, f, o.path);
      var table := fs.fdtable[..];
      var live2 := StillLive(live, table, inodeBid);
      ghost var fds2 := map k | k in abs.fds && abs.fds[k].path != o.path :: abs.fds[k];
      RemovedFds(abs.fds, fds2, t0, fs.tree, r0, fs.roles, live, live2, table, f, o.path);
      live := live2;
      abs := Apply(abs, RemoveOp(fd), Done(0));
      StaleShows(a0, fd, table);
      reply := Done(ret);
    }

    method Perform(op: Op) returns (reply: Reply)
      requires Valid()
      modifies this, fs, fs.disk, fs.freemap, fs.fdtable
      ensures Valid() && fs.spare == old(fs.spare)
      ensures abs == Apply(old(abs), op, reply) && Right(old(abs), op, reply)
      ensures StepOk(old(Now()), old(abs), op, reply, Now())
    {
      hide Valid, Apply, Right, StepOk;
      match op {
        case MkdirOp(dir) => reply := Mkdir(dir);
        case RmdirOp(dir) => reply := Rmdir(dir);
        case OpenOp(dir, name) => reply := Open(dir, name);
        case CloseOp(fd) => reply := Close(fd);
        case WriteOp(fd, bytes) => reply := Write(fd, bytes);
        case ReadOp(fd, length) => reply := Read(fd, length);
        case SeekOp(fd, relative, loc) => reply := Seek(fd, relative, loc);
        case RemoveOp(fd) => reply := Remove(fd);
      }
    }

    /**
     Any sequence of operations. All replies are those of the abstract file
     system. Between any two operations the marked blocks of the disk are exactly
     the freemap block and the blocks that can be reached from block 0. Each
     operation is refused exactly if it may not be asked for or the blocks it
     takes are not free at that time, and goes through safe images only, but for
     the one between the two writes of a directory's removal.
     */
    method Run(ops: seq<Op>) returns (run: seq<Event>, ghost snaps: seq<Snapshot>)
      requires Valid() && fs.spare == {}
      modifies this, fs, fs.disk, fs.freemap, fs.fdtable
      ensures Valid() && fs.spare == {}
      ensures |run| == |ops| && forall i | 0 <= i < |run| :: run[i].op == ops[i]
      ensures abs == After(old(abs), run) && RightRun(old(abs), run)
      ensures |snaps| == |run| + 1 && snaps[0] == old(Now()) && snaps[|run|] == Now()
      ensures forall i | 0 <= i <= |run| :: Whole(snaps[i])
      ensures StepsOk(old(abs), run, snaps)
      ensures WellFormed(old(abs)) ==> WellFormed(abs)
    {
      hide Valid, Apply, Right, Whole, StepOk, WellFormed;
      NowWhole();
      run := [];
      snaps := [Now()];
      var i := 0;
      while i < |ops|
        invariant 0 <= i <= |ops| && |run| == i && |snaps| == i + 1
        invariant Valid() && fs.spare == {}
        invariant forall k | 0 <= k < i :: run[k].op == ops[k]
        invariant abs == After(old(abs), run) && RightRun(old(abs), run)
        invariant snaps[0] == old(Now()) && snaps[i] == Now()
        invariant forall k | 0 <= k <= i :: Whole(snaps[k])
        invariant StepsOk(old(abs), run, snaps)
      {
        var reply := Perform(ops[i]);
        NowWhole();
        RunMore(old(abs), run, Event(ops[i], reply));
        StepsMore(old(abs), run, snaps, Event(ops[i], reply), Now());
        run := run + [Event(ops[i], reply)];
        snaps := snaps + [Now()];
        i := i + 1;
      }
      if WellFormed(old(abs)) {
        RunWellFormed(old(abs), run);
      }
    }

    lemma NowWhole()
      requires Valid() && fs.spare == {}
      ensures Whole(Now())
    {
      hide Sound, ExactMap, SafeImage, ShowsFiles, ShowsFds, ShowsBusy, Named, Sized;
      SoundIsExact(fs.disk[..], fs.tree, fs.roles, {});
    }
  }

  /** The disk holds the tree, the marked blocks are exactly the reachable ones and the freemap block, and the image is safe. */
  ghost predicate Whole(s: Snapshot) {
    Sound(s.d, s.t, s.r, {}) && ExactMap(s.d) && SafeImage(s.d)
  }

  ghost predicate StepsOk(a: Abs, run: seq<Event>, snaps: seq<Snapshot>) {
    && |snaps| == |run| + 1
    && forall i | 0 <= i < |run| :: StepOk(snaps[i], After(a, run[..i]), run[i].op, run[i].reply, snaps[i + 1])
  }

  lemma StepsMore(a: Abs, run: seq<Event>, snaps: seq<Snapshot>, e: Event, s: Snapshot)
    requires StepsOk(a, run, snaps) && StepOk(snaps[|run|], After(a, run), e.op, e.reply, s)
    ensures StepsOk(a, run + [e], snaps + [s])
  {
    hide StepOk, After;
    var more, snaps2 := run + [e], snaps + [s];
    forall i | 0 <= i < |more|
      ensures StepOk(snaps2[i], After(a, more[..i]), more[i].op, more[i].reply, snaps2[i + 1])
    {
      if i < |run| {
        assert more[..i] == run[..i];
      } else {
        assert more[..i] == run;
      }
    }
  }

  // ---- descriptors in use ----

  lemma BusyStays(a: Abs, b: Abs, table: seq<Fd>)
    requires ShowsBusy(a, table) && b.fds == a.fds && b.stale == a.stale
    ensures ShowsBusy(b, table)
  {
  }

  lemma BusySame(a: Abs, b: Abs, table: seq<Fd>, table2: seq<Fd>)
    requires ShowsBusy(a, table) && b.fds.Keys == a.fds.Keys && b.stale == a.stale
    requires |table2| == |table| && forall k | 0 <= k < |table| :: table2[k].valid == table[k].valid
    ensures ShowsBusy(b, table2)
  {
  }

  lemma BusyMore(a: Abs, b: Abs, table: seq<Fd>, table2: seq<Fd>, fd: int)
    requires ShowsBusy(a, table) && 0 <= fd < MAX_OPENED_FILES && table[fd].valid == 0
    requires b.fds.Keys == a.fds.Keys + {fd} && b.stale == a.stale
    requires |table2| == |table| && table2[fd].valid != 0 && forall k | 0 <= k < |table| && k != fd :: table2[k] == table[k]
    ensures ShowsBusy(b, table2)
  {
  }

  lemma BusyLess(a: Abs, b: Abs, table: seq<Fd>, table2: seq<Fd>, fd: int)
    requires ShowsBusy(a, table) && 0 <= fd < MAX_OPENED_FILES
    requires b.fds == a.fds - {fd} && b.stale == a.stale - {fd}
    requires |table2| == |table| && table2[fd].valid == 0 && forall k | 0 <= k < |table| && k != fd :: table2[k] == table[k]
    ensures ShowsBusy(b, table2)
  {
  }

  /** A removal makes the file's descriptors stale. */
  lemma StaleShows(a: Abs, fd: int, table: seq<Fd>)
    requires ShowsBusy(a, table) && fd in a.fds
    ensures ShowsBusy(Apply(a, RemoveOp(fd), Done(0)), table)
  {
    var b := Apply(a, RemoveOp(fd), Done(0));
    forall k
      ensures Busy(b, k) <==> Busy(a, k)
    {
    }
  }

  // ---- files ----

  lemma CreatedNew(t: Tree, t2: Tree, i: nat, s: nat, f: nat, name: string)
    requires Created(t, t2, i, s, f, name)
    ensures f !in t.files
  {
  }

  lemma RowsNow(fs: Sfs, f: nat)
    requires fs.Valid() && f in fs.tree.files
    ensures FullRows(fs.tree.files[f])
  {
    hide Sound, Named, Sized, Consistent, FullRows;
    fs.NowConsistent();
    RowsAreFull(fs.disk[..], fs.tree, fs.roles, f);
  }

  lemma CreatedOnly(t: Tree, t2: Tree, i: nat, s: nat, f: nat, name: string)
    requires Created(t, t2, i, s, f, name)
    ensures |t2.dirs| == |t.dirs|
    ensures forall g | g in t2.files :: (g in t.files && t2.files[g] == t.files[g]) || JustCreated(t2.files[g])
  {
  }

  /**
   At most one file has changed: it is at least `end` bytes long now, its chain has
   the frames for its size, and of its old entries only those under the bytes from
   number `from` to number `to` have changed.
   */
  ghost predicate OneFileGrows(t: Tree, t2: Tree, from: nat, to: nat, end: nat) {
    t2.dirs == t.dirs && forall f | f in t2.files :: f in t.files && (t2.files[f] == t.files[f] || FileGrows(t.files[f], t2.files[f], from, to, end))
  }

  ghost predicate FileGrows(a: FileNode, b: FileNode, from: nat, to: nat, end: nat) {
    && b.size == Max(a.size, end) && |b.chain| == FrameCount(b.size) && FullRows(b)
    && OnlyIn(a, b, from / BLOCK_SIZE, to / BLOCK_SIZE)
  }

  lemma GrowsIs(t: Tree, t2: Tree, f: nat, cur: nat, length: nat)
    requires f in t.files && f in t2.files && t2 == WithFile(t, f, t2.files[f]) && FullRows(t2.files[f])
    requires Reserved(t.files[f], t2.files[f], cur, length) && OnlyIn(t.files[f], t2.files[f], cur / BLOCK_SIZE, (cur + length) / BLOCK_SIZE)
    ensures OneFileGrows(t, t2, cur, cur + length, cur + length)
  {
    hide FrameCount, OnlyIn;
  }

  lemma ReadGrowsIs(t: Tree, t2: Tree, f: nat, cur: nat, got: nat, length: nat)
    requires f in t.files && f in t2.files && t2 == WithFile(t, f, t2.files[f]) && FullRows(t2.files[f]) && got <= length
    requires Reserved(t.files[f], t2.files[f], 0, 0) && OnlyIn(t.files[f], t2.files[f], cur / BLOCK_SIZE, (cur + got) / BLOCK_SIZE)
    ensures OneFileGrows(t, t2, cur, cur + length, 0)
  {
    hide FrameCount, Entry;
    assert (cur + got) / BLOCK_SIZE <= (cur + length) / BLOCK_SIZE;
  }

  lemma FileAtIs(t: Tree, path: Path)
    requires FileOf(t, path.0, path.1) in t.files
    ensures FileAt(t, path) == t.files[FileOf(t, path.0, path.1)]
  {
    hide FileOf;
  }

  lemma FirstFreeIs(t: Tree, dir: string)
    requires HasDir(t, dir)
    ensures FirstFree(t, dir) == FreeSlot(t.dirs[FindDir(t, dir)].slots, 0)
  {
  }

  /** One step of the count of missing entries. */
  lemma MissingZero(file: FileNode, a: nat, n: nat)
    ensures n == 0 ==> Missing(file, a, n) == 0
    ensures n > 0 ==> Missing(file, a, n) == (if a / FRAME_COUNT < |file.chain| && Entry(file, a) == 0 then 1 else 0) + Missing(file, a + 1, n - 1)
  {
    hide Entry;
  }

  lemma EntryOf(file: FileNode, k: nat)
    requires k / FRAME_COUNT < |file.chain| && |file.chain[k / FRAME_COUNT].content| == FRAME_COUNT
    ensures Entry(file, k) == file.chain[k / FRAME_COUNT].content[k % FRAME_COUNT]
  {
  }

  /** In a directory that does not exist there is no file. */
  lemma NoSuchDir(a: Abs, t: Tree, dir: string, content: map<nat, seq<byte>>)
    requires ShowsFiles(a.files, t, content) && !HasDir(t, dir)
    ensures forall name :: (dir, name) !in a.files
  {
    forall name
      ensures (dir, name) !in a.files
    {
      assert ShowsFile(a.files, t, content, dir, name);
    }
  }

  lemma RemoveNothing(s: seq<string>, x: string)
    requires x !in s
    ensures WithoutName(s, x) == s
  {
  }

  /** A directory has a slot in use exactly when some path in it leads to a file. */
  lemma DirInUse(a: Abs, t: Tree, dir: string, i: nat, content: map<nat, seq<byte>>)
    requires ShowsFiles(a.files, t, content) && Named(t) && SlotsAreFiles(t)
    requires HasDir(t, dir) && i == FindDir(t, dir)
    ensures AllFree(t.dirs[i].slots) <==> forall name :: (dir, name) !in a.files
  {
    hide Named, FileOf;
    if AllFree(t.dirs[i].slots) {
      forall name
        ensures (dir, name) !in a.files
      {
        assert ShowsFile(a.files, t, content, dir, name);
        FileOfSlots(t, dir, name);
      }
    } else {
      var s :| 0 <= s < |t.dirs[i].slots| && t.dirs[i].slots[s] != 0;
      assert SlotsIn(t.dirs[i].slots, t.files.Keys);
      var name := t.files[t.dirs[i].slots[s]].name;
      assert IsAt(t, dir, name, i, s);
      FoundAt(t, dir, name, i, s);
      assert ShowsFile(a.files, t, content, dir, name);
    }
  }

  lemma PathShown(a: Abs, t: Tree, content: map<nat, seq<byte>>, dir: string, name: string)
    requires ShowsFiles(a.files, t, content)
    ensures (dir, name) in a.files <==> FileOf(t, dir, name) != 0
    ensures FileOf(t, dir, name) != 0 ==>
              FileOf(t, dir, name) in content && a.files[(dir, name)] == content[FileOf(t, dir, name)]
  {
    hide FileOf;
    assert ShowsFile(a.files, t, content, dir, name);
  }

  lemma NamesWithout(t: Tree, t2: Tree, i: nat)
    requires Named(t) && i < |t.dirs| && t2.dirs == t.dirs[..i] + t.dirs[i + 1..]
    ensures Names(t2) == WithoutName(Names(t), t.dirs[i].name)
  {
    WithoutAt(Names(t), i);
    assert Names(t2) == Names(t)[..i] + Names(t)[i + 1..];
  }

  lemma {:induction false} WithoutAt(s: seq<string>, i: nat)
    requires i < |s| && forall k | 0 <= k < i :: s[k] != s[i]
    ensures WithoutName(s, s[i]) == s[..i] + s[i + 1..]
    decreases i
  {
    if i != 0 {
      WithoutAt(s[1..], i - 1);
      assert s[..i] + s[i + 1..] == [s[0]] + (s[1..][..i - 1] + s[1..][i..]);
    } else {
      assert s[..0] + s[1..] == s[1..];
    }
  }

  lemma GoneDirShows(t: Tree, t2: Tree, r: map<nat, Role>, r2: map<nat, Role>, i: nat, dir: string, a: Abs,
                     content: map<nat, seq<byte>>, content2: map<nat, seq<byte>>, live: seq<bool>, table: seq<Fd>)
    requires Named(t) && Named(t2) && HasDir(t, dir) && i == FindDir(t, dir) && AllFree(t.dirs[i].slots)
    requires t.dirs[i].bid in r && r[t.dirs[i].bid].RDir?
    requires t2 == RemovedDir(t, r, i) && t2.files == t.files && r2 == WithoutDir(r, t.dirs[i].bid, i)
    requires Orphans(r, t.dirs[i].bid) == {}
    requires content.Keys == t.files.Keys && content2.Keys == t2.files.Keys && forall f | f in content2 :: f in content && content2[f] == content[f]
    requires a.dirs == Names(t) && ShowsFiles(a.files, t, content) && ShowsFds(a.fds, t, r, live, table)
    ensures WithoutName(a.dirs, dir) == Names(t2) && ShowsFiles(a.files, t2, content2) && ShowsFds(a.fds, t2, r2, live, table)
  {
    hide Named, FileOf, ShowsFiles, ShowsFds, InDir;
    assert content == content2;
    forall d, n
      ensures FileOf(t2, d, n) == FileOf(t, d, n)
    {
      RemovedDirLookup(t, t2, i, d, n);
    }
    SameFiles(a.files, t, t2, content);
    var b := t.dirs[i].bid;
    forall f | f in r && r[f].RInode?
      ensures f in r2 && r2[f] == r[f]
    {
      assert f !in Orphans(r, b);
    }
    SameFds(a.fds, t, t2, r, r2, live, table);
    NamesWithout(t, t2, i);
  }

  lemma NewFileShows(t: Tree, t2: Tree, r: map<nat, Role>, r2: map<nat, Role>, i: nat, s: nat, f: nat, path: Path, a: Abs,
                     content: map<nat, seq<byte>>, live: seq<bool>, table: seq<Fd>)
    requires Named(t) && Named(t2) && SlotsAreFiles(t) && Created(t, t2, i, s, f, path.1) && f != 0 && f !in content
    requires t.dirs[i].name == path.0 && FileOf(t, path.0, path.1) == 0
    requires Without(r2, f) == r
    requires a.dirs == Names(t) && ShowsFiles(a.files, t, content) && ShowsFds(a.fds, t, r, live, table)
    ensures path !in a.files && a.dirs == Names(t2)
    ensures ShowsFiles(a.files[path := []], t2, content[f := []]) && ShowsFds(a.fds, t2, r2, live, table)
  {
    hide Named, FileOf, ShowsFiles, SlotsAreFiles;
    forall d, n
      ensures FileOf(t2, d, n) == if (d, n) == path then f else FileOf(t, d, n)
    {
      CreatedLookup(t, t2, i, s, f, path.1, d, n);
    }
    ShowsCreate(a.files, t, t2, content, f, path);
    assert forall b | b in r :: b in Without(r2, f);
    forall k | k in a.fds
      ensures ShowsFd(a.fds[k], t2, r2, table[k])
    {
      assert ShowsFd(a.fds[k], t, r, table[k]);
    }
  }

  lemma OpenedShows(fds: map<int, OpenFile>, t: Tree, r: map<nat, Role>, live: seq<bool>, table: seq<Fd>, table2: seq<Fd>,
                    fd: int, o: OpenFile)
    requires ShowsFds(fds, t, r, live, table) && |table2| == MAX_OPENED_FILES && 0 <= fd < MAX_OPENED_FILES
    requires table[fd].valid == 0 && forall k | 0 <= k < MAX_OPENED_FILES && k != fd :: table2[k] == table[k]
    requires ShowsFd(o, t, r, table2[fd])
    ensures fd !in fds && ShowsFds(fds[fd := o], t, r, live[fd := true], table2)
  {
    hide FileOf;
    assert fd in fds ==> ShowsFd(fds[fd], t, r, table[fd]);
  }

  lemma OpenFds(fds: map<int, OpenFile>, t: Tree, r: map<nat, Role>, live: seq<bool>, table: seq<Fd>)
    requires ShowsFds(fds, t, r, live, table)
    ensures |live| == MAX_OPENED_FILES && forall k :: k in fds <==> 0 <= k < MAX_OPENED_FILES && live[k]
  {
  }

  lemma ClosedShows(fds: map<int, OpenFile>, t: Tree, r: map<nat, Role>, live: seq<bool>, table: seq<Fd>, table2: seq<Fd>, fd: int)
    requires ShowsFds(fds, t, r, live, table) && |table2| == MAX_OPENED_FILES && 0 <= fd < MAX_OPENED_FILES
    requires forall k | 0 <= k < MAX_OPENED_FILES && k != fd :: table2[k] == table[k]
    ensures ShowsFds(fds - {fd}, t, r, live[fd := false], table2)
  {
    hide FileOf;
    forall k | k in fds - {fd}
      ensures ShowsFd(fds[k], t, r, table2[k])
    {
      assert ShowsFd(fds[k], t, r, table[k]);
    }
  }

  /** Moving the cursor of one descriptor. */
  lemma MovedShows(fds: map<int, OpenFile>, t: Tree, r: map<nat, Role>, r2: map<nat, Role>, live: seq<bool>, table: seq<Fd>, table2: seq<Fd>,
                   fd: int, o: OpenFile)
    requires ShowsFds(fds, t, r, live, table) && |table2| == MAX_OPENED_FILES && fd in fds && r2 == r
    requires forall k | 0 <= k < MAX_OPENED_FILES && k != fd :: table2[k] == table[k]
    requires 0 <= fd < MAX_OPENED_FILES && table2[fd] == table[fd].(inode := table2[fd].inode, cur := table2[fd].cur)
    requires o == fds[fd].(cur := table2[fd].cur)
    ensures ShowsFds(fds[fd := o], t, r2, live, table2)
  {
    hide FileOf;
    forall k | k in fds
      ensures ShowsFd(fds[fd := o][k], t, r, table2[k])
    {
      assert ShowsFd(fds[k], t, r, table[k]);
    }
  }

  /** What an open descriptor says of the file system. */
  lemma LiveFacts(fs: Sfs, a: Abs, live: seq<bool>, fd: int)
    requires fs.Valid() && ShowsFiles(a.files, fs.tree, fs.Files()) && ShowsFds(a.fds, fs.tree, fs.roles, live, fs.fdtable[..])
    requires 0 <= fd < MAX_OPENED_FILES && |live| == MAX_OPENED_FILES && live[fd]
    ensures fd in a.fds && fs.LiveFd(fd) && InDirectory(fs.roles, fs.fdtable[fd].inodeBid, fs.fdtable[fd].dirBid)
    ensures var f := fs.fdtable[fd].inodeBid;
      && f != 0 && f == FileOf(fs.tree, a.fds[fd].path.0, a.fds[fd].path.1)
      && a.fds[fd].path in a.files && a.files[a.fds[fd].path] == fs.FdBytes(fd) && a.fds[fd].cur == fs.fdtable[fd].cur
      && f in fs.Files() && fs.Files()[f] == fs.FdBytes(fd)
  {
    hide Sfs.Stored, Named, Sized, FileOf, Bytes;
    PathFacts(fs);
    assert ShowsFd(a.fds[fd], fs.tree, fs.roles, fs.fdtable[..][fd]);
    PathShown(a, fs.tree, fs.Files(), a.fds[fd].path.0, a.fds[fd].path.1);
  }

  lemma FileInPlace(fs: Sfs, f: nat)
    requires fs.Valid() && f in fs.tree.files
    ensures f in fs.roles && fs.roles[f].RInode?
  {
    hide Sfs.Stored, Named, Sized;
    var i, s := fs.RemovePlace(f);
  }

  lemma SameLookups(t: Tree, t2: Tree, f: nat)
    requires f in t.files && f in t2.files && t2 == WithFile(t, f, t2.files[f]) && t2.files[f].name == t.files[f].name
    requires Named(t) && Named(t2)
    ensures forall dir, name :: FileOf(t2, dir, name) == FileOf(t, dir, name)
  {
    hide FileOf, Named;
    forall dir, name
      ensures FileOf(t2, dir, name) == FileOf(t, dir, name)
    {
      UpdatedLookup(t, f, t2.files[f], dir, name);
    }
  }

  lemma SameDirsNames(t: Tree, t2: Tree)
    requires t2.dirs == t.dirs
    ensures Names(t2) == Names(t)
  {
  }

  lemma GrownFds(fds: map<int, OpenFile>, t: Tree, t2: Tree, r: map<nat, Role>, r2: map<nat, Role>, live: seq<bool>, table: seq<Fd>, f: nat)
    requires ShowsFds(fds, t, r, live, table) && RolesGrow(r, r2, f)
    requires forall dir, name :: FileOf(t2, dir, name) == FileOf(t, dir, name)
    ensures ShowsFds(fds, t2, r2, live, table)
  {
    hide FileOf;
    SameFds(fds, t, t2, r, r2, live, table);
  }

  /** The descriptors that do not name the given inode. */
  function StillLive(live: seq<bool>, table: seq<Fd>, inodeBid: nat): (s: seq<bool>)
    requires |live| == |table|
    ensures |s| == |live| && forall k | 0 <= k < |s| :: s[k] == (live[k] && table[k].inodeBid != inodeBid)
  {
    seq(|live|, k requires 0 <= k < |live| => live[k] && table[k].inodeBid != inodeBid)
  }

  // ---- files in a directory ----

  lemma SomeFileIn(a: Abs, dir: string)
    ensures (exists name :: (dir, name) in a.files) <==> FilesIn(a, dir) != {}
  {
    if name :| (dir, name) in a.files {
      assert (dir, name) in FilesIn(a, dir);
    }
    if FilesIn(a, dir) != {} {
      var p :| p in FilesIn(a, dir);
      assert (dir, p.1) in a.files;
    }
  }

  /** How many of the first n slots are in use. */
  function UsedSlots(slots: seq<nat>, n: nat): (m: nat)
    requires n <= |slots|
    ensures m <= n
    ensures m == n <==> forall s | 0 <= s < n :: slots[s] != 0
  {
    if n == 0 then 0 else UsedSlots(slots, n - 1) + if slots[n - 1] == 0 then 0 else 1
  }

  /** A directory is full exactly when it holds as many files as it has slots. */
  lemma FullDirectory(a: Abs, t: Tree, dir: string, i: nat, content: map<nat, seq<byte>>)
    requires ShowsFiles(a.files, t, content) && Named(t) && SlotsAreFiles(t)
    requires HasDir(t, dir) && i == FindDir(t, dir)
    ensures |t.dirs[i].slots| == NINODES && |FilesIn(a, dir)| == UsedSlots(t.dirs[i].slots, NINODES)
    ensures FreeSlot(t.dirs[i].slots, 0) == NINODES <==> |FilesIn(a, dir)| >= NINODES
  {
    hide Named, FileOf, ShowsFiles, FilesIn;
    var slots := t.dirs[i].slots;
    assert SlotsIn(slots, t.files.Keys);
    var paths := PathsOfSlots(a, t, dir, i, content, NINODES);
    forall p | p in FilesIn(a, dir)
      ensures p in paths
    {
      PathHasSlot(a, t, dir, i, content, p);
    }
    assert paths == FilesIn(a, dir);
  }

  lemma PathHasSlot(a: Abs, t: Tree, dir: string, i: nat, content: map<nat, seq<byte>>, p: Path)
    requires ShowsFiles(a.files, t, content) && Named(t) && HasDir(t, dir) && i == FindDir(t, dir)
    requires p in FilesIn(a, dir)
    ensures exists s :: 0 <= s < |t.dirs[i].slots| && t.dirs[i].slots[s] != 0 && t.dirs[i].slots[s] in t.files && p == (dir, t.files[t.dirs[i].slots[s]].name)
  {
    hide Named, FileOf;
    assert ShowsFile(a.files, t, content, dir, p.1);
    FileOfSlots(t, dir, p.1);
    var s := SlotIndex(t, t.dirs[i].slots, p.1, 0);
    assert IsFile(t, t.dirs[i].slots[s], p.1);
  }

  lemma {:induction false} PathsOfSlots(a: Abs, t: Tree, dir: string, i: nat, content: map<nat, seq<byte>>, n: nat) returns (paths: set<Path>)
    requires ShowsFiles(a.files, t, content) && Named(t)
    requires i < |t.dirs| && t.dirs[i].name == dir && n <= |t.dirs[i].slots|
    requires forall s | 0 <= s < n && t.dirs[i].slots[s] != 0 :: t.dirs[i].slots[s] in t.files
    ensures |paths| == UsedSlots(t.dirs[i].slots, n) && paths <= FilesIn(a, dir)
    ensures forall p :: p in paths <==> exists s :: 0 <= s < n && t.dirs[i].slots[s] != 0 && p == (dir, t.files[t.dirs[i].slots[s]].name)
  {
    hide ShowsFiles, FileOf;
    if n == 0 {
      paths := {};
    } else {
      var before := PathsOfSlots(a, t, dir, i, content, n - 1);
      if t.dirs[i].slots[n - 1] == 0 {
        paths := before;
      } else {
        var name := t.files[t.dirs[i].slots[n - 1]].name;
        SlotShown(a, t, dir, i, content, n - 1);
        assert NamedSlots(t, t.dirs[i].slots);
        assert (dir, name) !in before;
        paths := before + {(dir, name)};
      }
    }
  }

  lemma SlotShown(a: Abs, t: Tree, dir: string, i: nat, content: map<nat, seq<byte>>, s: nat)
    requires ShowsFiles(a.files, t, content) && Named(t)
    requires i < |t.dirs| && t.dirs[i].name == dir && s < |t.dirs[i].slots| && t.dirs[i].slots[s] != 0 && t.dirs[i].slots[s] in t.files
    ensures (dir, t.files[t.dirs[i].slots[s]].name) in FilesIn(a, dir)
  {
    hide FileOf, Named;
    var name := t.files[t.dirs[i].slots[s]].name;
    assert IsAt(t, dir, name, i, s);
    FoundAt(t, dir, name, i, s);
    assert ShowsFile(a.files, t, content, dir, name);
  }

  lemma RunMore(a: Abs, run: seq<Event>, e: Event)
    requires RightRun(a, run) && Right(After(a, run), e.op, e.reply)
    ensures RightRun(a, run + [e]) && After(a, run + [e]) == Apply(After(a, run), e.op, e.reply)
  {
    hide Apply, Right;
    var more := run + [e];
    assert more[..|more| - 1] == run;
    forall i | 0 <= i < |more|
      ensures Right(After(a, more[..i]), more[i].op, more[i].reply)
    {
      if i < |run| {
        assert more[..i] == run[..i];
      } else {
        assert more[..i] == run;
      }
    }
  }

  lemma RemovedPaths(t: Tree, t2: Tree, r: map<nat, Role>, f: nat, path: Path)
    requires Named(t) && Named(t2) && OnePlace(t) && RemovedFrom(t, r, t2, f) && f in t.files
    requires f != 0 && f == FileOf(t, path.0, path.1)
    ensures forall dir, name :: FileOf(t2, dir, name) == if (dir, name) == path then 0 else FileOf(t, dir, name)
    ensures Names(t2) == Names(t)
  {
    hide FileOf, Named, OnePlace;
    var i, s := r[r[f].dir].idx, r[f].slot;
    PathOfSlot(t, i, s, f, path);
    forall dir, name
      ensures FileOf(t2, dir, name) == if (dir, name) == path then 0 else FileOf(t, dir, name)
    {
      RemovedLookup(t, i, s, f, dir, name);
    }
  }

  lemma PathOfSlot(t: Tree, i: nat, s: nat, f: nat, path: Path)
    requires Named(t) && OnePlace(t) && i < |t.dirs| && s < |t.dirs[i].slots| && t.dirs[i].slots[s] == f && f in t.files
    requires f != 0 && f == FileOf(t, path.0, path.1)
    ensures path == (t.dirs[i].name, t.files[f].name)
  {
    hide FileOf, Named, OnePlace;
    assert IsAt(t, t.dirs[i].name, t.files[f].name, i, s);
    FoundAt(t, t.dirs[i].name, t.files[f].name, i, s);
    PathsDiffer(t, path.0, path.1, t.dirs[i].name, t.files[f].name);
  }

  lemma RemovedFds(fds: map<int, OpenFile>, fds2: map<int, OpenFile>, t: Tree, t2: Tree, r: map<nat, Role>, r2: map<nat, Role>,
                   live: seq<bool>, live2: seq<bool>, table: seq<Fd>, f: nat, path: Path)
    requires ShowsFds(fds, t, r, live, table) && OnePlace(t) && r2 == Without(r, f)
    requires f != 0 && f == FileOf(t, path.0, path.1)
    requires forall dir, name :: FileOf(t2, dir, name) == if (dir, name) == path then 0 else FileOf(t, dir, name)
    requires |live2| == MAX_OPENED_FILES && forall k | 0 <= k < MAX_OPENED_FILES :: live2[k] == (live[k] && table[k].inodeBid != f)
    requires fds2 == map k | k in fds && fds[k].path != path :: fds[k]
    ensures ShowsFds(fds2, t2, r2, live2, table)
  {
    hide FileOf, OnePlace;
    forall k | k in fds
      ensures table[k].inodeBid == f <==> fds[k].path == path
    {
      assert ShowsFd(fds[k], t, r, table[k]);
      if table[k].inodeBid == f {
        PathsDiffer(t, path.0, path.1, fds[k].path.0, fds[k].path.1);
      }
    }
    forall k | k in fds2
      ensures ShowsFd(fds2[k], t2, r2, table[k])
    {
      assert ShowsFd(fds[k], t, r, table[k]);
    }
  }

  lemma FilesAre(fs: Sfs)
    ensures fs.Files() == FilesOf(fs.disk[..], fs.tree)
    ensures fs.Free() == FreeCount(MapOf(fs.disk[..]))
  {
  }

  lemma LiveLength(fds: map<int, OpenFile>, t: Tree, r: map<nat, Role>, live: seq<bool>, table: seq<Fd>)
    requires ShowsFds(fds, t, r, live, table)
    ensures |live| == MAX_OPENED_FILES
  {
  }

  lemma NowSound(fs: Sfs) returns (d: seq<Block>)
    requires fs.Valid()
    ensures d == fs.disk[..] && Sound(d, fs.tree, fs.roles, fs.spare) && fs.freemap[..] == MapOf(d)
  {
    hide Sound, Named, Sized;
    d := fs.disk[..];
  }

  lemma FreeNow(fs: Sfs)
    requires fs.Valid()
    ensures FreeCount(fs.freemap[..]) == fs.Free() >= 0
  {
    hide Sound, Named, Sized, Marked, FreeCount;
    FreeCountPositive(fs.freemap[..]);
  }

  lemma NewDirShows(t: Tree, t2: Tree, r: map<nat, Role>, r2: map<nat, Role>, b: nat, dir: string,
                    a: Abs, content: map<nat, seq<byte>>, live: seq<bool>, table: seq<Fd>)
    requires t2 == t.(dirs := t.dirs + [DirNode(b, dir, Zeros(NINODES))]) && Named(t) && Named(t2)
    requires r2 == r[b := RDir(|t.dirs|)] && (b in r ==> !r[b].RInode?)
    requires a.dirs == Names(t) && ShowsFiles(a.files, t, content) && ShowsFds(a.fds, t, r, live, table)
    ensures a.dirs + [dir] == Names(t2) && ShowsFiles(a.files, t2, content) && ShowsFds(a.fds, t2, r2, live, table)
  {
    hide Named, FileOf, ShowsFiles, ShowsFds;
    forall d, n
      ensures FileOf(t2, d, n) == FileOf(t, d, n)
    {
      AppendedLookup(t, t2, b, dir, d, n);
    }
    SameFiles(a.files, t, t2, content);
    SameFds(a.fds, t, t2, r, r2, live, table);
  }
}
