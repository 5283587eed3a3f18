/** The Simple File System: its tables in memory, its disk, and its operations. */
module FileSystem {
  import opened Allocator
  import opened Bits
  import opened ByteFile
  import opened Chains
  import opened Contents
  import opened Copying
  import opened Effects
  import opened Layout
  import opened Lookup
  import opened Paths
  import opened Reachability
  import opened Steps
  import opened Store
  import opened Unlinks

  const MAX_OPENED_FILES: nat := 32

  datatype Fd = Fd(inode: InodeRec, inodeBid: nat, dirBid: nat, cur: nat, valid: nat)

  const NO_FD: Fd := Fd(InodeRec(0, 0, ""), 0, 0, 0, 0)

  datatype Whence = SeekSet | SeekCur | SeekEnd

  class Sfs {
    const disk: array<Block>
    const freemap: array<bv32>
    const fdtable: array<Fd>
    var sb: Superblock
    ghost var tree: Tree
    ghost var roles: map<nat, Role>
    ghost var spare: set<nat>
    ghost var log: seq<seq<Block>>  // the disk image after each block write

    /** The tables have their fixed sizes. */
    ghost predicate Shaped() {
      && disk.Length == BLOCKS && freemap.Length == WORDS && fdtable.Length == MAX_OPENED_FILES
      && disk as object != fdtable && freemap as object != fdtable
    }

    /** The disk holds the tree, and the freemap in memory is the one on the disk. */
    ghost predicate Made()
      reads this, disk, freemap
    {
      && Shaped()
      && Sound(disk[..], tree, roles, spare)
      && freemap[..] == MapOf(disk[..])
    }

    /** The same, and the superblock in memory tells where the freemap is. */
    ghost predicate Stored()
      reads this, disk, freemap
    {
      Made() && sb.nfreemapBlocks == 1
    }

    /** The superblock in memory is the one on the disk. */
    ghost predicate Mounted()
      reads this
    {
      sb == SuperOf(tree)
    }

    /** What holds between any two operations on a mounted file system. */
    ghost predicate Valid()
      reads this, disk, freemap
    {
      Stored() && Mounted() && Sized(tree) && Named(tree)
    }

    ghost function Free(): int
      reads disk
    {
      FreeCount(MapOf(disk[..]))
    }

    /** The contents of every file, by its inode. */
    ghost function Files(): map<nat, seq<byte>>
      reads this, disk
    {
      FilesOf(disk[..], tree)
    }

    // ---- block input and output ----

    method WriteBlock(b: nat, x: Block)
      requires b < disk.Length
      modifies disk, `log
      ensures disk[..] == old(disk[..])[b := x]
      ensures log == old(log) + [disk[..]]
    {
      disk[b] := x;
      log := log + [disk[..]];
    }

    /** sfs_read_block into the freemap. */
    method ReadFreemap()
      requires Shaped() && |MapOf(disk[..])| == WORDS
      modifies freemap
      ensures freemap[..] == MapOf(disk[..])
    {
      forall i | 0 <= i < WORDS {
        freemap[i] := disk[1].words[i];
      }
    }

    method FlushFreemap()
      requires Shaped()
      modifies disk, `log
      ensures disk[..] == old(disk[..])[1 := FreemapBlk(freemap[..])]
      ensures log == old(log) + [disk[..]]
    {
      WriteBlock(1, FreemapBlk(freemap[..]));
    }

    method AllocBlock() returns (bid: nat)
      requires Made() && sb.nfreemapBlocks <= 1
      modifies disk, freemap, `spare, `log
      ensures Made()
      ensures LogGrows(old(log), log)
      ensures sb.nfreemapBlocks == 0 || old(Free()) == 0 ==> bid == 0 && disk[..] == old(disk[..]) && spare == old(spare) && log == old(log)
      ensures sb.nfreemapBlocks == 1 && old(Free()) > 0 ==>
                && IsLeastFree(MapOf(old(disk[..])), bid) && bid > 1 && bid < BLOCKS
                && disk[..] == MarkedImage(old(disk[..]), bid)[bid := ZERO_BLOCK]
                && bid !in old(spare) && bid !in roles && spare == old(spare) + {bid}
                && disk[bid] == ZERO_BLOCK && (forall b | 1 < b < BLOCKS && b != bid :: disk[b] == old(disk[b]))
                && Free() == old(Free()) - 1
      ensures KeepsFiles(old(disk[..]), tree, disk[..], tree)
    {
      hide Sound, SafeImage, KeepsFiles, FreeCount, IsLeastFree, Marked, SetMark, MarkedImage, LogGrows;
      SoundFacts(disk[..], tree, roles, spare);
      if sb.nfreemapBlocks == 0 {
        AllKeep(disk[..], tree, roles, disk[..]);
        NoLog(log);
        return 0;
      }
      ReadFreemap();
      var found;
      found, bid := FindFreeBit(freemap);
      if found {
        FirstIsFree(freemap[..], bid);
        TakeBlock(bid);
      } else {
        AllKeep(disk[..], tree, roles, disk[..]);
        NoneIsFree(freemap[..]);
        NoLog(log);
      }
    }

    /** sfs_alloc_block in a mounted file system. */
    method TakeFree() returns (bid: nat)
      requires Stored()
      modifies disk, freemap, `spare, `log
      ensures Stored()
      ensures LogGrows(old(log), log)
      ensures old(Free()) == 0 ==> bid == 0 && disk[..] == old(disk[..]) && spare == old(spare) && log == old(log)
      ensures old(Free()) > 0 ==>
                && IsLeastFree(MapOf(old(disk[..])), bid) && bid > 1 && bid < BLOCKS
                && disk[..] == MarkedImage(old(disk[..]), bid)[bid := ZERO_BLOCK]
                && bid !in old(spare) && bid !in roles && spare == old(spare) + {bid}
                && disk[bid] == ZERO_BLOCK && (forall b | 1 < b < BLOCKS && b != bid :: disk[b] == old(disk[b]))
                && Free() == old(Free()) - 1
      ensures KeepsFiles(old(disk[..]), tree, disk[..], tree)
    {
      hide Made, KeepsFiles, FreeCount, IsLeastFree, MarkedImage, LogGrows;
      bid := AllocBlock();
    }

    /** Marking an unmarked block on the disk and clearing its data. */
    method TakeBlock(bid: nat)
      requires Made() && bid < BLOCKS && |MapOf(disk[..])| == WORDS && !Marked(MapOf(disk[..]), bid)
      modifies disk, freemap, `spare, `log
      ensures Made()
      ensures LogGrows(old(log), log)
      ensures bid > 1 && bid !in old(spare) && bid !in roles && spare == old(spare) + {bid}
      ensures disk[..] == MarkedImage(old(disk[..]), bid)[bid := ZERO_BLOCK]
      ensures disk[bid] == ZERO_BLOCK && forall b | 1 < b < BLOCKS && b != bid :: disk[b] == old(disk[b])
      ensures Free() == old(Free()) - 1
      ensures KeepsFiles(old(disk[..]), tree, disk[..], tree)
    {
      hide Sound, SafeImage, KeepsFiles, FreeCount, Marked, SetMark, LogGrows;
      AllocSound(disk[..], tree, roles, spare, bid);
      NoLog(log);
      ghost var d0 := disk[..];
      freemap[bid / 32] := Or(freemap[bid / 32], Mask(bid % 32));
      SetMarkIs(MapOf(d0), bid);
      FlushFreemap();
      assert disk[..] == MarkedImage(d0, bid);
      LogGrowsOne(old(log), old(log), disk[..]);
      WriteBlock(bid, ZERO_BLOCK);
      LogGrowsOne(old(log), old(log) + [MarkedImage(d0, bid)], disk[..]);
      spare := spare + {bid};
    }

    method FreeBlock(bid: nat)
      requires Shaped() && |MapOf(disk[..])| == WORDS && bid < BLOCKS
      modifies disk, freemap, `log
      ensures disk[..] == ClearedImage(old(disk[..]), bid)
      ensures freemap[..] == MapOf(disk[..])
      ensures log == old(log) + [disk[..]]
    {
      ReadFreemap();
      freemap[bid / 32] := AndNot(freemap[bid / 32], Mask(bid % 32));
      FlushFreemap();
    }
  
    // ---- making, mounting and reloading a file system ----

    constructor ()
      ensures Shaped() && fresh(disk) && fresh(freemap) && fresh(fdtable)
      ensures log == [] && tree == Tree([], map[]) && roles == map[] && spare == {}
    {
      disk := new Block[BLOCKS](_ => ZERO_BLOCK);
      freemap := new bv32[WORDS](_ => 0);
      fdtable := new Fd[MAX_OPENED_FILES](_ => NO_FD);
      sb := Superblock(0, 0, 0, 0);
      tree, roles, spare, log := Tree([], map[]), map[], {}, [];
    }

    /** Makes an empty file system. The superblock in memory is left cleared. */
    method Mkfs() returns (ret: int)
      requires Shaped()
      modifies this, disk, freemap, fdtable
      ensures ret == 0 && Made()
      ensures tree == Tree([], map[]) && spare == {}
      ensures forall b: nat | b < BLOCKS :: Marked(MapOf(disk[..]), b) <==> b < 2
      ensures sb == Superblock(0, 0, 0, 0)
      ensures forall k | 0 <= k < MAX_OPENED_FILES :: fdtable[k].valid == 0
    {
      hide Sound, Marked;
      CloseAll();
      sb := Superblock(SFS_MAGIC, 1024, 1, 0);
      WriteBlock(0, SuperBlk(sb));
      forall i | 0 <= i < WORDS {
        freemap[i] := 0;
      }
      WriteBlock(sb.nblocks, FreemapBlk(freemap[..]));
      freemap[0] := 0x3;
      FlushFreemap();
      tree, roles, spare := Tree([], map[]), map[0 := RSuper, 1 := RFreemap], {};
      EmptyIsSound(disk[..], freemap[..]);
      sb := Superblock(0, 0, 0, 0);
      return 0;
    }

    method CloseAll()
      requires Shaped()
      modifies fdtable
      ensures forall k | 0 <= k < MAX_OPENED_FILES :: fdtable[k].valid == 0
    {
      var k := 0;
      while k < MAX_OPENED_FILES
        invariant 0 <= k <= MAX_OPENED_FILES
        invariant forall h | 0 <= h < k :: fdtable[h].valid == 0
      {
        fdtable[k] := fdtable[k].(valid := 0);
        k := k + 1;
      }
    }

    /** sfs_print_info: loads the superblock. */
    method PrintInfo()
      requires Made()
      modifies `sb
      ensures Stored() && Mounted()
    {
      hide Sound;
      SoundFacts(disk[..], tree, roles, spare);
      sb := disk[0].sb;
    }

    /** sfs_reloadfs: whatever the memory holds, the store on the disk is recovered. */
    method ReloadFs()
      requires Shaped() && Sound(disk[..], tree, roles, spare)
      modifies `sb, freemap
      ensures Stored() && Mounted() && Files() == old(Files())
      ensures old(Valid()) ==> Valid() && sb == old(sb) && freemap[..] == old(freemap[..])
    {
      hide Sound;
      SoundFacts(disk[..], tree, roles, spare);
      sb := disk[0].sb;
      ReadFreemap();
    }

    // ---- directories ----

    /** sfs_find_dir: the block of the first directory with the given name, or 0. */
    method FindDirBlock(dirname: string) returns (bid: nat)
      requires Stored() && Mounted()
      ensures bid == DirAt(tree, FindDir(tree, dirname))
      ensures bid != 0 <==> HasDir(tree, dirname)
    {
      hide Sound;
      SoundFacts(disk[..], tree, roles, spare);
      bid := sb.firstDir;
      ghost var i := 0;
      while bid != 0
        invariant 0 <= i <= |tree.dirs| && bid == DirAt(tree, i)
        invariant FindDir(tree, dirname) == DirIndex(tree, dirname, i)
        decreases |tree.dirs| - i
      {
        DirBlockFacts(disk[..], tree, roles, i);
        var dir := AsDir(disk[bid]);
        if dir.dirName == dirname {
          return;
        }
        bid := dir.nextDir;
        i := i + 1;
      }
      if i < |tree.dirs| {
        DirBlockFacts(disk[..], tree, roles, i);
      }
    }

    /** Appends a directory with no files, unless one of that name exists. */
    method Mkdir(dirname: string) returns (ret: int)
      requires Valid()
      requires !HasDir(tree, dirname) ==> Free() > 0
      modifies this, disk, freemap
      ensures Valid() && LogGrows(old(log), log) && spare == old(spare)
      ensures old(HasDir(tree, dirname)) ==> ret == -1 && tree == old(tree) && roles == old(roles) && disk[..] == old(disk[..])
      ensures !old(HasDir(tree, dirname)) ==>
                && ret == 0
                && |tree.dirs| == |old(tree).dirs| + 1
                && IsLeastFree(MapOf(old(disk[..])), LastDir(tree).bid) && LastDir(tree).bid !in old(roles)
                && tree == old(tree).(dirs := old(tree).dirs + [DirNode(LastDir(tree).bid, dirname, Zeros(NINODES))])
                && roles == old(roles)[LastDir(tree).bid := RDir(|old(tree).dirs|)]
                && Free() == old(Free()) - 1
      ensures Files() == old(Files())
    {
      hide Sound, SafeImage, KeepsFiles, FreeCount, IsLeastFree, Marked, MarkedImage, LogGrows, FilesOf, Named, Sized, HasDir;
      var found := FindDirBlock(dirname);
      NoLog(log);
      if found != 0 {
        return -1;
      }
      ghost var t0, d0 := tree, disk[..];
      var newBid := TakeFree();
      ghost var d1, log1 := disk[..], log;
      AppendNamed(newBid, dirname);
      LogGrowsTrans(old(log), log1, log);
      KeepsTrans(d0, t0, d1, t0, disk[..], tree);
      SameContents(d0, t0, disk[..], tree);
      MkdirNames(t0, tree, dirname);
      return 0;
    }

    /** Turns a cleared block into the last directory: first the link, then the block itself. */
    method AppendNamed(newBid: nat, dirname: string)
      requires Stored() && Mounted()
      requires newBid in spare && newBid < BLOCKS && disk[newBid] == ZERO_BLOCK
      modifies this, disk
      ensures Stored() && Mounted() && LogGrows(old(log), log)
      ensures tree == old(tree).(dirs := old(tree).dirs + [DirNode(newBid, dirname, Zeros(NINODES))])
      ensures roles == old(roles)[newBid := RDir(|old(tree).dirs|)]
      ensures spare == old(spare) - {newBid}
      ensures MapOf(disk[..]) == MapOf(old(disk[..]))
      ensures KeepsFiles(old(disk[..]), old(tree), disk[..], tree)
    {
      hide Sound, SafeImage, KeepsFiles, Marked, LogGrows;
      AppendLink(newBid);
      ghost var n, t1, d1, log1 := |tree.dirs| - 1, tree, disk[..], log;
      NameDirSound(d1, t1, roles, spare, n, dirname);
      WriteBlock(newBid, DirBlk(0, dirname, Zeros(NINODES)));
      tree := NamedDir(tree, n, dirname);
      LogGrowsOne(old(log), log1, disk[..]);
      KeepsTrans(old(disk[..]), old(tree), d1, t1, disk[..], tree);
      assert tree.dirs == old(tree).dirs + [DirNode(newBid, dirname, Zeros(NINODES))];
    }

    /** Links a cleared block behind the last directory. */
    method AppendLink(newBid: nat)
      requires Stored() && Mounted()
      requires newBid in spare && newBid < BLOCKS && disk[newBid] == ZERO_BLOCK
      modifies this, disk
      ensures Stored() && Mounted() && LogGrows(old(log), log)
      ensures tree == AppendedDirs(old(tree), newBid) && roles == old(roles)[newBid := RDir(|old(tree).dirs|)]
      ensures spare == old(spare) - {newBid}
      ensures MapOf(disk[..]) == MapOf(old(disk[..]))
      ensures KeepsFiles(old(disk[..]), old(tree), disk[..], tree)
    {
      hide Sound, SafeImage, KeepsFiles, Marked, LogGrows, LinkToDir;
      SoundFacts(disk[..], tree, roles, spare);
      AppendDirSound(disk[..], tree, roles, spare, newBid);
      NoLog(log);
      LinkOfTree(disk[..], tree, roles, newBid);
      if sb.firstDir == 0 {
        sb := sb.(firstDir := newBid);
        WriteBlock(0, SuperBlk(sb));
      } else {
        LinkLast(newBid);
      }
      LogGrowsOne(old(log), old(log), disk[..]);
      roles := roles[newBid := RDir(|tree.dirs|)];
      tree := AppendedDirs(tree, newBid);
      spare := spare - {newBid};
    }

    /** The walk of sfs_mkdir to the directory block without a successor. */
    method LinkLast(newBid: nat)
      requires Stored() && Mounted() && sb.firstDir != 0
      modifies disk, `log
      ensures LinkToDir(tree, newBid).0 < BLOCKS
      ensures disk[..] == old(disk[..])[LinkToDir(tree, newBid).0 := LinkToDir(tree, newBid).1]
      ensures log == old(log) + [disk[..]]
    {
      hide Sound, AsDir, Consistent, LinkToDir, DirPlaced;
      SoundFacts(disk[..], tree, roles, spare);
      ghost var d0 := disk[..];
      ghost var i := 0;
      var next := sb.firstDir;
      while next != 0
        invariant next != 0 ==> 0 <= i < |tree.dirs| && next == tree.dirs[i].bid && disk[..] == d0 && log == old(log)
        invariant next == 0 ==>
                    && LinkToDir(tree, newBid).0 < BLOCKS
                    && disk[..] == d0[LinkToDir(tree, newBid).0 := LinkToDir(tree, newBid).1]
                    && log == old(log) + [disk[..]]
        decreases if next == 0 then -1 else |tree.dirs| - i
      {
        WalkOn(d0, tree, roles, i, newBid);
        assert disk[next] == d0[next];
        var dir := AsDir(disk[next]);
        if dir.nextDir == 0 {
          WriteBlock(next, dir.(nextDir := newBid));
          next := 0;
        } else {
          next := dir.nextDir;
          i := i + 1;
        }
      }
    }

    /**
     Removes a directory, whether or not it still holds files. Its block is
     freed before it is unlinked, so the first of the two images is unsafe;
     the blocks of its files stay marked and become unreachable.
     */
    method Rmdir(dirname: string) returns (ret: int)
      requires Valid()
      modifies this, disk, freemap
      ensures Valid()
      ensures !old(HasDir(tree, dirname)) ==>
                ret == -1 && tree == old(tree) && roles == old(roles) && spare == old(spare) && disk[..] == old(disk[..]) && log == old(log)
      ensures old(HasDir(tree, dirname)) ==>
                var i := FindDir(old(tree), dirname); var dir := old(tree).dirs[i].bid;
                && ret == 0
                && tree == RemovedDir(old(tree), old(roles), i)
                && roles == WithoutDir(old(roles), dir, i)
                && spare == old(spare) + Orphans(old(roles), dir)
                && Free() == old(Free()) + 1
                && (exists window :: log == old(log) + [window, disk[..]] && !SafeImage(window) && SafeImage(disk[..]))
                && forall f | f in Files() :: f in old(Files()) && Files()[f] == old(Files())[f]
    {
      hide Sound, SafeImage, KeepsFiles, FreeCount, Marked, LogGrows, FilesOf, Named, Sized, HasDir, Orphans, RemovedDir, WithoutDir, LinkPast;
      var dirBid := FindDirBlock(dirname);
      if dirBid == 0 {
        return -1;
      }
      ghost var d0, t0, r0, i := disk[..], tree, roles, FindDir(tree, dirname);
      HasDirIndex(t0, dirname);
      SoundFacts(d0, t0, r0, spare);
      DirBlockFacts(d0, t0, r0, i);
      RemoveDirAt(dirBid, i);
      RmdirNames(t0, r0, i);
      RmdirContents(d0, t0, r0, disk[..], i);
      return 0;
    }

    /** Frees the block of directory i and links around it. */
    method RemoveDirAt(dirBid: nat, ghost i: nat)
      requires Stored() && Mounted() && i < |tree.dirs| && tree.dirs[i].bid == dirBid && dirBid < BLOCKS
      modifies this, disk, freemap
      ensures Stored() && Mounted()
      ensures tree == RemovedDir(old(tree), old(roles), i) && roles == WithoutDir(old(roles), dirBid, i)
      ensures spare == old(spare) + Orphans(old(roles), dirBid)
      ensures Free() == old(Free()) + 1
      ensures exists window :: log == old(log) + [window, disk[..]] && !SafeImage(window) && SafeImage(disk[..])
      ensures KeepsFiles(old(disk[..]), tree, disk[..], tree)
    {
      hide Sound, SafeImage, KeepsFiles, FreeCount, Marked, Orphans, RemovedDir, WithoutDir, LinkPast, ClearMark, Consistent, DirPlaced;
      ghost var d0, t0, r0 := disk[..], tree, roles;
      SoundFacts(d0, t0, r0, spare);
      UnlinkDirSound(d0, t0, r0, spare, i);
      DirBlockFacts(d0, t0, r0, i);
      FreeBlock(dirBid);
      ghost var window := disk[..];
      assert window == ClearedImage(d0, dirBid);
      FirstDirOnly(d0, t0, r0, i);
      if sb.firstDir == dirBid {
        assert disk[dirBid] == d0[dirBid];
        var dir := AsDir(disk[dirBid]);
        sb := disk[0].sb;
        sb := sb.(firstDir := dir.nextDir);
        WriteBlock(0, SuperBlk(sb));
      } else {
        UnlinkLater(dirBid, i, d0);
      }
      tree := RemovedDir(t0, r0, i);
      roles := WithoutDir(r0, dirBid, i);
      spare := spare + Orphans(r0, dirBid);
      assert log == old(log) + [window, disk[..]];
    }

    /** The walk of sfs_rmdir to the directory before the one to be removed. */
    method UnlinkLater(dirBid: nat, ghost i: nat, ghost d0: seq<Block>)
      requires Shaped() && Consistent(d0, tree, roles) && Mounted()
      requires 0 < i < |tree.dirs| && dirBid == tree.dirs[i].bid && sb.firstDir != dirBid
      requires |MapOf(d0)| == WORDS && dirBid < BLOCKS && disk[..] == ClearedImage(d0, dirBid)
      modifies disk, `log
      ensures LinkPast(tree, i).0 < BLOCKS
      ensures disk[..] == old(disk[..])[LinkPast(tree, i).0 := LinkPast(tree, i).1]
      ensures log == old(log) + [disk[..]]
    {
      hide Consistent, AsDir, ClearMark;
      ghost var w := disk[..];
      ghost var k := 0;
      var next := sb.firstDir;
      DirBlockFacts(d0, tree, roles, i);
      while next != dirBid
        invariant 0 <= k <= i && next == tree.dirs[k].bid && sb == old(sb)
        invariant next != dirBid ==> k < i && disk[..] == w && log == old(log)
        invariant next == dirBid ==>
                    && LinkPast(tree, i).0 < BLOCKS
                    && disk[..] == w[LinkPast(tree, i).0 := LinkPast(tree, i).1]
                    && log == old(log) + [disk[..]]
        decreases i - k
      {
        DirBlockFacts(d0, tree, roles, k);
        DirBlockFacts(d0, tree, roles, k + 1);
        assert disk[next] == d0[next];
        var current := next;
        var dir := AsDir(disk[current]);
        next := dir.nextDir;
        k := k + 1;
        if next == dirBid {
          assert k == i;
          assert disk[next] == d0[next];
          var gone := AsDir(disk[next]);
          WriteBlock(current, dir.(nextDir := gone.nextDir));
        }
      }
    }

    /** sfs_lsdir: the number of directories. */
    method LsDir() returns (n: nat)
      requires Stored()
      modifies `sb
      ensures Mounted() && n == |tree.dirs|
    {
      PrintInfo();
      n := CountDirs();
    }

    /** The walk of sfs_lsdir over the directory list. */
    method CountDirs() returns (n: nat)
      requires Stored() && Mounted()
      ensures n == |tree.dirs|
    {
      hide Sound, AsDir;
      SoundFacts(disk[..], tree, roles, spare);
      n := 0;
      var bid := sb.firstDir;
      while bid != 0
        invariant 0 <= n <= |tree.dirs| && bid == DirAt(tree, n)
        decreases |tree.dirs| - n
      {
        DirBlockFacts(disk[..], tree, roles, n);
        bid := AsDir(disk[bid]).nextDir;
        n := n + 1;
      }
      if n < |tree.dirs| {
        DirBlockFacts(disk[..], tree, roles, n);
      }
    }

    /** sfs_ls: the number of files in all directories. */
    method Ls() returns (n: nat)
      requires Stored()
      modifies `sb
      ensures Mounted() && n == |tree.files|
    {
      PrintInfo();
      n := CountFiles();
    }

    /** The nested walk of sfs_ls. */
    method CountFiles() returns (n: nat)
      requires Stored() && Mounted()
      ensures n == |tree.files|
    {
      hide Stored, AsDir, ListedBefore, Consistent;
      n := 0;
      ghost var i := 0;
      FirstDirFacts();
      NoneListed(tree, roles);
      NowConsistent();
      var nextDir := sb.firstDir;
      while nextDir != 0
        invariant 0 <= i <= |tree.dirs| && nextDir == DirAt(tree, i)
        invariant nextDir != 0 <==> i < |tree.dirs|
        invariant n == |ListedBefore(tree, roles, i, 0)|
        decreases |tree.dirs| - i
      {
        DirFacts(i);
        if i + 1 < |tree.dirs| { DirFacts(i + 1); }
        var m := CountSlots(nextDir, i);
        n := n + m;
        ListDir(disk[..], tree, roles, i);
        nextDir := AsDir(disk[nextDir]).nextDir;
        i := i + 1;
      }
      ListAll(disk[..], tree, roles);
    }

    method CountSlots(dirBid: nat, ghost i: nat) returns (n: nat)
      requires Stored() && i < |tree.dirs| && tree.dirs[i].bid == dirBid
      ensures n == |ListedBefore(tree, roles, i, NINODES)| - |ListedBefore(tree, roles, i, 0)|
    {
      hide Stored, AsDir, ListedBefore, Consistent;
      DirFacts(i);
      NowConsistent();
      var dir := AsDir(disk[dirBid]);
      n := 0;
      var count := 0;
      while count < NINODES
        invariant 0 <= count <= NINODES
        invariant n == |ListedBefore(tree, roles, i, count)| - |ListedBefore(tree, roles, i, 0)|
      {
        ListNext(disk[..], tree, roles, i, count);
        if dir.inodes[count] != 0 {
          n := n + 1;
        }
        count := count + 1;
      }
    }

    lemma FirstDirFacts()
      requires Stored()
      ensures DirAt(tree, 0) != 0 <==> |tree.dirs| > 0
    {
      hide Sound, AsDir;
      if |tree.dirs| > 0 {
        DirFacts(0);
      }
    }

    // ---- frames and content blocks ----

    lemma FrameIsKnown(f: nat, j: nat)
      requires Stored() && f in tree.files && j < |tree.files[f].chain|
      ensures disk.Length == BLOCKS
      ensures KeepsFiles(disk[..], tree, disk[..], tree)
      ensures |tree.files[f].chain[j].content| == FRAME_COUNT
      ensures forall h | 0 <= h < FRAME_COUNT :: tree.files[f].chain[j].content[h] == 0 || tree.files[f].chain[j].content[h] in roles
    {
      hide Sound, KeepsFiles, Marked;
      SoundFacts(disk[..], tree, roles, spare);
      AllKeep(disk[..], tree, roles, disk[..]);
      EntriesOfFrame(disk[..], tree, roles, f, j);
    }

    /**
     The inner loop of sfs_get_file_content: collects the entries of one frame
     from number k0 on, giving each unset entry a cleared block.
     */
    method GatherEntries(c0: seq<nat>, k0: nat, remaining: nat, ghost f: nat, ghost j: nat)
      returns (content: seq<nat>, ids: seq<nat>, ghost extra: map<nat, Role>)
      requires Stored() && |c0| == FRAME_COUNT && k0 <= FRAME_COUNT
      requires f in tree.files && j < |tree.files[f].chain| && tree.files[f].chain[j].content == c0
      requires Free() >= Missing(tree.files[f], FRAME_COUNT * j + k0, Min(remaining, FRAME_COUNT - k0))
      modifies disk, freemap, `spare, `log
      ensures Stored() && LogGrows(old(log), log)
      ensures |content| == FRAME_COUNT && |ids| == Min(remaining, FRAME_COUNT - k0)
      ensures forall i | 0 <= i < |ids| :: ids[i] == content[k0 + i] && ids[i] != 0
      ensures forall h | 0 <= h < FRAME_COUNT && !(k0 <= h < k0 + |ids|) :: content[h] == c0[h]
      ensures forall h | k0 <= h < k0 + |ids| :: content[h] != 0 && (c0[h] != 0 ==> content[h] == c0[h])
      ensures Fills(c0, content, extra, f, j)
      ensures spare == old(spare) + extra.Keys && old(spare) !! extra.Keys
      ensures forall b | b in extra :: b < BLOCKS && disk[b] == ZERO_BLOCK && b !in roles
      ensures forall b | 1 < b < BLOCKS && b !in extra :: disk[b] == old(disk[b])
      ensures Free() == old(Free()) - Missing(tree.files[f], FRAME_COUNT * j + k0, |ids|)
      ensures KeepsFiles(old(disk[..]), tree, disk[..], tree)
    {
      hide Stored, SafeImage, KeepsFiles, FreeCount, IsLeastFree, Marked, MarkedImage, LogGrows, Fills, Entry, Gathered, Missing, MapOf;
      ghost var file, n, base := tree.files[f], Min(remaining, FRAME_COUNT - k0), FRAME_COUNT * j;
      ghost var d0 := disk[..];
      content, ids, extra := c0, [], map[];
      var k, left := k0, remaining;
      NoLog(log);
      FrameIsKnown(f, j);
      GatheredNone(c0, k0, f, j, roles, spare);
      while k < FRAME_COUNT && left > 0
        invariant k0 <= k <= FRAME_COUNT && left >= 0 && k - k0 + left == remaining && |content| == FRAME_COUNT
        invariant Stored() && LogGrows(old(log), log) && KeepsFiles(d0, tree, disk[..], tree)
        invariant Gathered(c0, k0, k, content, ids, extra, f, j, roles, old(spare))
        invariant spare == old(spare) + extra.Keys
        invariant forall b | b in extra :: 1 < b < BLOCKS && disk[b] == ZERO_BLOCK
        invariant forall b | 1 < b < BLOCKS && b !in extra :: disk[b] == old(disk[b])
        invariant Free() - Missing(file, base + k, n - (k - k0)) == old(Free()) - Missing(file, base + k0, n)
      {
        EntryAt(file, j, k);
        MissingStep(file, base + k, n - (k - k0));
        GatheredStep(c0, k0, k, content, ids, extra, f, j, roles, old(spare));
        if content[k] == 0 {
          ghost var d1, log1 := disk[..], log;
          var bid := TakeFree();
          KeepsTrans(d0, tree, d1, tree, disk[..], tree);
          LogGrowsTrans(old(log), log1, log);
          GatheredNew(c0, k0, k, content, ids, extra, f, j, roles, old(spare), bid);
          content := content[k := bid];
          extra := extra[bid := RData(f, j, k)];
        }
        ids := ids + [content[k]];
        k := k + 1;
        left := left - 1;
      }
      GatheredAll(c0, k0, k, content, ids, extra, f, j, roles, old(spare));
      MissingStep(file, base + k, n - (k - k0));
    }

    /** One round of the outer loop of sfs_get_file_content: the entries of frame j, and its write. */
    method FillFromFrame(frameBid: nat, k0: nat, remaining: nat, ghost f: nat, ghost j: nat)
      returns (ids: seq<nat>, next: nat)
      requires Stored() && k0 <= FRAME_COUNT
      requires f in tree.files && j < |tree.files[f].chain| && tree.files[f].chain[j].bid == frameBid
      requires Free() >= Missing(tree.files[f], FRAME_COUNT * j + k0, Min(remaining, FRAME_COUNT - k0))
      modifies disk, freemap, `tree, `roles, `spare, `log
      ensures Stored() && LogGrows(old(log), log) && spare == old(spare)
      ensures f in tree.files && tree == WithFile(old(tree), f, tree.files[f])
      ensures |ids| == Min(remaining, FRAME_COUNT - k0)
      ensures Filled(old(tree).files[f], tree.files[f], FRAME_COUNT * j + k0, |ids|)
      ensures forall i | 0 <= i < |ids| :: ids[i] == Entry(tree.files[f], FRAME_COUNT * j + k0 + i) && ids[i] != 0
      ensures next == FrameAt(old(tree).files[f], j + 1)
      ensures RolesGrow(old(roles), roles, f)
      ensures Free() == old(Free()) - Missing(old(tree).files[f], FRAME_COUNT * j + k0, |ids|)
      ensures KeepsFiles(old(disk[..]), old(tree), disk[..], tree)
    {
      hide Stored, Sound, SafeImage, KeepsFiles, FreeCount, Marked, LogGrows, Fills, Entry, Missing, MapOf, Filled, AsFrame, RolesGrow;
      ghost var d0, t0, r0, file := disk[..], tree, roles, tree.files[f];
      FrameBlockFacts(f, j);
      var frame := AsFrame(disk[frameBid]);
      var content;
      ghost var extra;
      content, ids, extra := GatherEntries(frame.content, k0, remaining, f, j);
      ghost var d1, log1 := disk[..], log;
      StoreFill(f, j, content, extra);
      FilledOne(file, j, content, k0, |ids|);
      WriteBlock(frameBid, FrameBlk(frame.next, content));
      tree := WithFile(tree, f, WithContent(file, j, content));
      roles := roles + extra;
      spare := spare - extra.Keys;
      assert spare == old(spare);
      StoredIs();
      LogGrowsOne(old(log), log1, disk[..]);
      KeepsTrans(d0, t0, d1, t0, disk[..], tree);
      FilledRoles(r0, extra, f, j, file.chain[j].content, content);
      forall i | 0 <= i < |ids|
        ensures ids[i] == Entry(tree.files[f], FRAME_COUNT * j + k0 + i)
      {
        EntryAt(tree.files[f], j, k0 + i);
      }
      next := frame.next;
    }

    /** The descriptor names a file of the tree; the operations on descriptors do not check it. */
    ghost predicate LiveFd(fd: int)
      reads this, fdtable
    {
      && fdtable.Length == MAX_OPENED_FILES && disk as object != fdtable && freemap as object != fdtable
      && 0 <= fd < MAX_OPENED_FILES && fdtable[fd].inodeBid in tree.files
    }

    /** The file that a descriptor names. */
    ghost function FdFile(fd: int): FileNode
      requires LiveFd(fd)
      reads this, fdtable
    {
      tree.files[fdtable[fd].inodeBid]
    }

    ghost function FdBytes(fd: int): seq<byte>
      requires LiveFd(fd)
      reads this, disk, fdtable
    {
      Bytes(disk[..], FdFile(fd))
    }

    /**
     The ids of the content blocks from the one that holds byte cur to the one
     that holds byte cur + length, as far as the chain goes. The frames before
     the first of them are skipped.
     */
    method GetFileContent(fd: int, cur: nat, length: nat) returns (bids: seq<nat>)
      requires Stored() && LiveFd(fd)
      requires Free() >= Missing(FdFile(fd), cur / BLOCK_SIZE, (cur + length) / BLOCK_SIZE - cur / BLOCK_SIZE + 1)
      modifies disk, freemap, `tree, `roles, `spare, `log
      ensures Stored() && LogGrows(old(log), log) && spare == old(spare) && LiveFd(fd)
      ensures var f := fdtable[fd].inodeBid; var file := old(tree).files[f]; var start := cur / BLOCK_SIZE;
        && tree == WithFile(old(tree), f, tree.files[f])
        && |bids| == InChain(file, start, (cur + length) / BLOCK_SIZE - start + 1)
        && Filled(file, tree.files[f], start, |bids|)
        && (forall i | 0 <= i < |bids| :: bids[i] == Entry(tree.files[f], start + i) && bids[i] != 0)
        && RolesGrow(old(roles), roles, f)
        && Free() == old(Free()) - Missing(file, start, |bids|)
      ensures KeepsFiles(old(disk[..]), old(tree), disk[..], tree)
    {
      hide Stored, Sound, SafeImage, KeepsFiles, FreeCount, Marked, LogGrows, Entry, Missing, MapOf, Filled, AsFrame, AsInode, RolesGrow, InChain;
      ghost var f := fdtable[fd].inodeBid;
      ghost var d0, t0, r0, file := disk[..], tree, roles, tree.files[f];
      NoLog(log);
      var start := cur / BLOCK_SIZE;
      var end := (cur + length) / BLOCK_SIZE;
      var blocksRemaining := end - start + 1;
      ghost var total := blocksRemaining;
      ghost var j: nat := 0;
      bids := [];
      var frameBid;
      frameBid, j := SkipFrames(fd, start / FRAME_COUNT);
      var blockCount: nat := start % FRAME_COUNT;
      StartFill(f, start, total);
      while blocksRemaining > 0 && frameBid != 0
        invariant 0 <= blocksRemaining && blocksRemaining + |bids| == total && blockCount < FRAME_COUNT
        invariant Stored() && LogGrows(old(log), log) && spare == old(spare)
        invariant f in tree.files && tree == WithFile(t0, f, tree.files[f])
        invariant Filled(file, tree.files[f], start, |bids|)
        invariant forall i | 0 <= i < |bids| :: bids[i] == Entry(tree.files[f], start + i) && bids[i] != 0
        invariant RolesGrow(r0, roles, f) && KeepsFiles(d0, t0, disk[..], tree)
        invariant Free() == old(Free()) - Missing(file, start, |bids|)
        invariant blocksRemaining > 0 ==>
                    && frameBid == FrameAt(file, j)
                    && (frameBid == 0 ==> |bids| == InChain(file, start, total))
                    && (frameBid != 0 ==> j < |file.chain| && FRAME_COUNT * j + blockCount == start + |bids|)
        invariant blocksRemaining == 0 ==> |bids| == InChain(file, start, total)
        decreases blocksRemaining
      {
        ghost var d1, t1, r1, log1, m := disk[..], tree, roles, log, |bids|;
        ChainEnd(f, j + 1);
        NextFill(file, t1.files[f], j, blockCount, start, m, blocksRemaining);
        var ids, next;
        ids, next := FillFromFrame(frameBid, blockCount, blocksRemaining, f, j);
        LogGrowsTrans(old(log), log1, log);
        KeepsTrans(d0, t0, d1, t1, disk[..], tree);
        RolesGrowTrans(r0, r1, roles, f);
        FilledTrans(file, t1.files[f], tree.files[f], start, m, |ids|);
        MissingSplit(file, start, m, |ids|);
        AfterFill(file, j, blockCount, start, m, |ids|, total);
        forall i | 0 <= i < |bids|
          ensures bids[i] == Entry(tree.files[f], start + i)
        {
          assert bids[i] != 0 && bids[i] == Entry(t1.files[f], start + i);
        }
        bids := bids + ids;
        blocksRemaining := blocksRemaining - |ids|;
        if blocksRemaining != 0 {
          frameBid := next;
          j := j + 1;
          blockCount := 0;
        }
      }
    }

    /** The walk to frame number n, or to the end of the chain. */
    method SkipFrames(fd: int, n: nat) returns (frameBid: nat, ghost j: nat)
      requires Stored() && LiveFd(fd)
      ensures j == Min(n, |FdFile(fd).chain|) && frameBid == FrameAt(FdFile(fd), j)
      ensures frameBid != 0 <==> n < |FdFile(fd).chain|
    {
      hide Stored, AsInode, AsFrame;
      InodeBlockFacts(fdtable[fd].inodeBid);
      var inode := AsInode(disk[fdtable[fd].inodeBid]);
      frameBid, j := inode.inode.firstFrame, 0;
      var skip := n;
      ChainEnd(fdtable[fd].inodeBid, 0);
      while skip > 0 && frameBid != 0
        invariant j <= |FdFile(fd).chain| && frameBid == FrameAt(FdFile(fd), j) && 0 <= skip && skip + j == n
        invariant frameBid != 0 <==> j < |FdFile(fd).chain|
      {
        FrameBlockFacts(fdtable[fd].inodeBid, j);
        ChainEnd(fdtable[fd].inodeBid, j + 1);
        frameBid := AsFrame(disk[frameBid]).next;
        skip := skip - 1;
        j := j + 1;
      }
    }

    lemma InodeBlockFacts(f: nat)
      requires Stored() && f in tree.files
      ensures disk.Length == BLOCKS && 1 < f < BLOCKS && f in roles && roles[f].RInode?
      ensures AsInode(disk[f]) == InodeBlk(InodeOf(tree.files[f]))
    {
      hide Sound, Marked, AsInode, FilePlaced;
      SoundFacts(disk[..], tree, roles, spare);
      FileFacts(disk[..], tree, roles, f);
    }

    lemma ChainEnd(f: nat, k: nat)
      requires Stored() && f in tree.files
      ensures FrameAt(tree.files[f], k) != 0 <==> k < |tree.files[f].chain|
    {
      hide Sound, Marked;
      SoundFacts(disk[..], tree, roles, spare);
      if k < |tree.files[f].chain| {
        FrameFacts(disk[..], tree, roles, f, k);
      }
    }

    lemma StartFill(f: nat, start: nat, total: nat)
      requires Stored() && f in tree.files
      ensures Filled(tree.files[f], tree.files[f], start, 0) && RolesGrow(roles, roles, f)
      ensures KeepsFiles(disk[..], tree, disk[..], tree)
      ensures tree == WithFile(tree, f, tree.files[f])
      ensures Missing(tree.files[f], start, 0) == 0
      ensures |tree.files[f].chain| <= start / FRAME_COUNT ==> InChain(tree.files[f], start, total) == 0
    {
      hide Sound, Consistent, Marked, KeepsFiles, Filled, FullRows;
      SoundFacts(disk[..], tree, roles, spare);
      RowsAreFull(disk[..], tree, roles, f);
      FilledNone(tree.files[f], start);
      AllKeep(disk[..], tree, roles, disk[..]);
    }

    /**
     One round of sfs_resize_file: a new frame, linked to the last one, and then
     a content block for each of its entries (all unset in a cleared block, so
     this is a round of sfs_get_file_content over the whole frame).
     */
    method AppendFrame(frameBid: nat, ghost f: nat) returns (newBid: nat)
      requires Stored() && f in tree.files && tree.files[f].chain != []
      requires frameBid == tree.files[f].chain[|tree.files[f].chain| - 1].bid
      requires Free() >= FRAME_COUNT + 1
      modifies disk, freemap, `tree, `roles, `spare, `log
      ensures Stored() && LogGrows(old(log), log) && spare == old(spare)
      ensures f in tree.files && tree == WithFile(old(tree), f, tree.files[f])
      ensures OneMoreFrame(old(tree).files[f], tree.files[f], newBid)
      ensures RolesGrow(old(roles), roles, f)
      ensures Free() == old(Free()) - (FRAME_COUNT + 1)
      ensures FreshFrames(old(disk[..]), disk[..], old(tree).files[f], tree.files[f])
      ensures KeepsFiles(old(disk[..]), old(tree), disk[..], tree)
    {
      hide FreshFrames, Stored, Sound, SafeImage, KeepsFiles, FreeCount, IsLeastFree, MarkedImage, Marked, LogGrows, Entry, Missing, MapOf, Filled, AsFrame, AsInode, RolesGrow, LinkToFrame, OneMoreFrame;
      ghost var d0, t0, r0, file, n := disk[..], tree, roles, tree.files[f], |tree.files[f].chain|;
      StoredSound();
      FrameBlockFacts(f, n - 1);
      ChainEnd(f, n);
      newBid := TakeFree();
      assert disk[frameBid] == old(disk[frameBid]);
      ghost var d1, log1 := disk[..], log;
      StoreLinkFrame(f, newBid, file.name);
      LinkOfFile(tree, f, newBid, file.name);
      var frame := AsFrame(disk[frameBid]);
      WriteBlock(frameBid, frame.(next := newBid));
      LogGrowsOne(old(log), log1, disk[..]);
      tree := WithFile(tree, f, WithFrame(file, newBid).(name := file.name));
      roles := roles[newBid := RFrame(f, n)];
      spare := spare - {newBid};
      assert spare == old(spare);
      StoredIs();
      ghost var d2, t2, r2, log2 := disk[..], tree, roles, log;
      KeepsTrans(d0, t0, d1, t0, d2, t2);
      NewFrameMissing(t2.files[f], n);
      var ids, next;
      ids, next := FillFromFrame(newBid, 0, FRAME_COUNT, f, n);
      LogGrowsTrans(old(log), log2, log);
      KeepsTrans(d0, t0, d2, t2, disk[..], tree);
      assert RolesGrow(r0, r2, f) by { OneRole(r0, f, newBid, n); }
      RolesGrowTrans(r0, r2, roles, f);
      NewFrameFilled(file, newBid, tree.files[f]);
      StoredSound();
      MoreIsFresh(d0, t0, r0, disk[..], tree, roles, spare, f, newBid);
    }

    lemma StoreLinkFrame(f: nat, b: nat, name: string)
      requires Stored() && f in tree.files && b in spare && b < BLOCKS && disk[b] == ZERO_BLOCK
      requires tree.files[f].chain != [] ==> name == tree.files[f].name
      ensures LinkToFrame(tree, f, b, name).0 < |disk[..]|
      ensures var d2 := disk[..][LinkToFrame(tree, f, b, name).0 := LinkToFrame(tree, f, b, name).1];
        var t2 := WithFile(tree, f, WithFrame(tree.files[f], b).(name := name));
        && SafeImage(d2) && MapOf(d2) == MapOf(disk[..]) && KeepsFiles(disk[..], tree, d2, t2)
        && Sound(d2, t2, roles[b := RFrame(f, |tree.files[f].chain|)], spare - {b})
        && freemap[..] == MapOf(disk[..]) && Shaped() && sb.nfreemapBlocks == 1
    {
      hide Sound, Marked, AsFrame, SafeImage, KeepsFiles, LinkToFrame;
      SoundFacts(disk[..], tree, roles, spare);
      LinkFrameSound(disk[..], tree, roles, spare, f, b, name);
    }

    /** Makes the chain of a file long enough for a larger size. The walk to the last frame is a repair. */
    method ResizeFile(fd: int, newSize: nat)
      requires Stored() && LiveFd(fd) && FdFile(fd).chain != []
      requires fdtable[fd].inode.size == FdFile(fd).size < newSize
      requires |FdFile(fd).chain| == FrameCount(FdFile(fd).size)
      requires Free() >= (FRAME_COUNT + 1) * (FrameCount(newSize) - |FdFile(fd).chain|)
      modifies disk, freemap, `tree, `roles, `spare, `log
      ensures Stored() && LogGrows(old(log), log) && spare == old(spare) && LiveFd(fd)
      ensures var f := fdtable[fd].inodeBid; var file := old(tree).files[f];
        && tree == WithFile(old(tree), f, tree.files[f])
        && Grown(file, tree.files[f], newSize)
        && RolesGrow(old(roles), roles, f)
        && FreshFrames(old(disk[..]), disk[..], file, tree.files[f])
        && Free() == old(Free()) - (FRAME_COUNT + 1) * (FrameCount(newSize) - |file.chain|)
      ensures KeepsFiles(old(disk[..]), old(tree), disk[..], tree)
    {
      hide FreshFrames, Stored, Sound, SafeImage, KeepsFiles, FreeCount, Marked, LogGrows, Entry, Missing, MapOf, AsFrame, AsInode, RolesGrow, OneMoreFrame, FrameCount, Grown, FullRows;
      ghost var f := fdtable[fd].inodeBid;
      ghost var d0, t0, r0, file := disk[..], tree, roles, tree.files[f];
      StoredSound();
      var frameSize := BLOCK_SIZE * FRAME_COUNT;
      var oldNframe := (fdtable[fd].inode.size + frameSize - 1) / frameSize;
      if oldNframe == 0 {
        oldNframe := oldNframe + 1;
      }
      var newNframe := (newSize + frameSize - 1) / frameSize;
      FrameCounts(fdtable[fd].inode.size, newSize);
      NoLog(log);
      StartFill(f, 0, 0);
      GrownNone(t0, r0, d0, f);
      var frameBid;
      ghost var last;
      frameBid, last := SkipFrames(fd, oldNframe - 1);
      var count := oldNframe;
      while count < newNframe
        invariant |file.chain| <= count <= newNframe
        invariant Stored() && LogGrows(old(log), log) && spare == old(spare)
        invariant f in tree.files && tree == WithFile(t0, f, tree.files[f])
        invariant GrownBy(file, tree.files[f], count) && |tree.files[f].chain| == count
        invariant frameBid == tree.files[f].chain[count - 1].bid
        invariant RolesGrow(r0, roles, f) && KeepsFiles(d0, t0, disk[..], tree)
        invariant Free() == old(Free()) - (FRAME_COUNT + 1) * (count - |file.chain|)
      {
        ghost var d1, t1, r1, log1 := disk[..], tree, roles, log;
        frameBid := AppendFrame(frameBid, f);
        LogGrowsTrans(old(log), log1, log);
        KeepsTrans(d0, t0, d1, t1, disk[..], tree);
        RolesGrowTrans(r0, r1, roles, f);
        GrownMore(file, t1.files[f], tree.files[f], frameBid, count);
        count := count + 1;
      }
      ghost var d1, t1, log1 := disk[..], tree, log;
      StoreHeader(f, newSize);
      InodeBlockFacts(f);
      var inode := AsInode(disk[fdtable[fd].inodeBid]).inode;
      WriteBlock(fdtable[fd].inodeBid, InodeBlk(inode.(size := newSize)));
      tree := WithFile(tree, f, tree.files[f].(size := newSize));
      StoredIs();
      LogGrowsOne(old(log), log1, disk[..]);
      KeepsTrans(d0, t0, d1, t1, disk[..], tree);
      GrownSize(file, t1.files[f], newSize, count);
      StoredSound();
      GrownIsFresh(d0, t0, r0, disk[..], tree, roles, spare, f, newSize);
    }

    lemma StoreHeader(f: nat, size: nat)
      requires Stored() && f in tree.files && size >= tree.files[f].size
      ensures f < |disk[..]|
      ensures var file := tree.files[f].(size := size); var d2 := disk[..][f := InodeBlk(InodeOf(file))];
        && SafeImage(d2) && MapOf(d2) == MapOf(disk[..]) && KeepsFiles(disk[..], tree, d2, WithFile(tree, f, file))
        && Sound(d2, WithFile(tree, f, file), roles, spare)
        && freemap[..] == MapOf(disk[..]) && Shaped() && sb.nfreemapBlocks == 1
    {
      hide Sound, Marked, SafeImage, KeepsFiles;
      SoundFacts(disk[..], tree, roles, spare);
      SetHeaderSound(disk[..], tree, roles, spare, f, tree.files[f].name, size);
    }

    /**
     The first half of sfs_write: makes the file large enough for length bytes
     at cur and collects the blocks that will hold them.
     */
    method Reserve(fd: int, cur: nat, length: nat) returns (bids: seq<nat>)
      requires Stored() && LiveFd(fd)
      requires |FdFile(fd).chain| == FrameCount(FdFile(fd).size)
      requires Free() >= WriteNeeds(FdFile(fd), cur, length)
      modifies disk, freemap, fdtable, `tree, `roles, `spare, `log
      ensures Stored() && LogGrows(old(log), log) && spare == old(spare) && LiveFd(fd)
      ensures forall k | 0 <= k < MAX_OPENED_FILES && k != fd :: fdtable[k] == old(fdtable[k])
      ensures fdtable[fd] == old(fdtable[fd]).(inode := fdtable[fd].inode)
      ensures var f := fdtable[fd].inodeBid;
        && tree == WithFile(old(tree), f, tree.files[f])
        && Reserved(old(tree).files[f], tree.files[f], cur, length)
        && OnlyIn(old(tree).files[f], tree.files[f], cur / BLOCK_SIZE, (cur + length) / BLOCK_SIZE)
        && |bids| == InChain(tree.files[f], cur / BLOCK_SIZE, (cur + length) / BLOCK_SIZE - cur / BLOCK_SIZE + 1)
        && (forall i | 0 <= i < |bids| :: bids[i] == Entry(tree.files[f], cur / BLOCK_SIZE + i) && bids[i] != 0)
        && RolesGrow(old(roles), roles, f)
        && Taken(tree.files[f]) == Taken(old(tree).files[f]) + WriteNeeds(old(tree).files[f], cur, length)
      ensures Free() == old(Free()) - WriteNeeds(old(FdFile(fd)), cur, length)
      ensures KeepsFiles(old(disk[..]), old(tree), disk[..], tree)
    {
      hide Stored, Sound, SafeImage, KeepsFiles, FreeCount, Marked, LogGrows, Entry, Missing, MapOf, AsInode, RolesGrow, FrameCount, Grown, Filled, InChain, Reserved, Taken, OnlyIn;
      ghost var f := fdtable[fd].inodeBid;
      ghost var d0, t0, r0, file := disk[..], tree, roles, tree.files[f];
      ghost var start, total := cur / BLOCK_SIZE, (cur + length) / BLOCK_SIZE - cur / BLOCK_SIZE + 1;
      InodeBlockFacts(f);
      StartFill(f, 0, 0);
      NoLog(log);
      MissingStep(file, start, total);
      ChainNotEmpty(file);
      GrowthIsNeeded(file.size, cur + length);
      var inode := AsInode(disk[fdtable[fd].inodeBid]).inode;
      if length + cur > inode.size {
        fdtable[fd] := fdtable[fd].(inode := inode);
        ResizeFile(fd, length + cur);
        GrownPrefix(file, tree.files[f], length + cur);
        MissingGrown(file, tree.files[f], length + cur, start, total);
        MissingStep(tree.files[f], start, total);
      }
      ghost var d1, t1, r1, log1 := disk[..], tree, roles, log;
      bids := GetFileContent(fd, cur, length);
      MissingInChain(t1.files[f], start, total);
      LogGrowsTrans(old(log), log1, log);
      KeepsTrans(d0, t0, d1, t1, disk[..], tree);
      RolesGrowTrans(r0, r1, roles, f);
      ReservedBy(file, t1.files[f], tree.files[f], cur, length, start, |bids|, total);
      InChainAtMost(t1.files[f], start, total);
      OnlyInFilled(file, t1.files[f], tree.files[f], start, |bids|, (cur + length) / BLOCK_SIZE);
    }

    /** The copy loop of sfs_write, with the source moving along. */
    method CopyIn(bids: seq<nat>, cur0: nat, buf: seq<byte>, ghost f: nat) returns (cur: nat, ghost used: nat)
      requires Stored() && f in tree.files && cur0 + |buf| <= tree.files[f].size
      requires tree.files[f].size <= FRAME_BYTES * |tree.files[f].chain|
      requires |bids| == InChain(tree.files[f], cur0 / BLOCK_SIZE, (cur0 + |buf|) / BLOCK_SIZE - cur0 / BLOCK_SIZE + 1)
      requires forall i | 0 <= i < |bids| :: bids[i] == Entry(tree.files[f], cur0 / BLOCK_SIZE + i) && bids[i] != 0
      modifies disk, `log
      ensures Stored() && LogGrows(old(log), log)
      ensures cur == cur0 + |buf| && used == Rounds(cur0, |buf|)
      ensures Patch(old(disk[..]), disk[..], tree.files[f], cur0, buf)
      ensures forall g | g in tree.files && g != f :: SameBytes(old(disk[..]), tree.files[g], disk[..], tree.files[g])
      ensures MapOf(disk[..]) == MapOf(old(disk[..]))
    {
      hide Stored, Sound, SafeImage, LogGrows, Entry, MapOf, InChain, Patch, SameBytes, Patched, Rounds;
      ghost var d0, file := disk[..], tree.files[f];
      NoRounds();
      NoLog(log);
      PatchNone(d0, file, cur0);
      AllSame(d0, tree);
      StoredShape();
      cur := cur0;
      var remaining, offset, done, bidCount := |buf|, cur0 % BLOCK_SIZE, 0, 0;
      while remaining > 0
        invariant 0 <= done && 0 <= remaining && done + remaining == |buf| && cur == cur0 + done
        invariant bidCount + Rounds(cur, remaining) == Rounds(cur0, |buf|)
        invariant remaining > 0 ==> offset == cur % BLOCK_SIZE && bidCount == cur / BLOCK_SIZE - cur0 / BLOCK_SIZE
        invariant Stored() && LogGrows(old(log), log) && MapOf(disk[..]) == MapOf(d0)
        invariant Patch(d0, disk[..], file, cur0, buf[..done])
        invariant forall g | g in tree.files && g != f :: SameBytes(d0, tree.files[g], disk[..], tree.files[g])
      {
        BidIsThere(file, cur0, cur, |buf|);
        assert bids[bidCount] == Entry(file, cur0 / BLOCK_SIZE + bidCount) == BlockOf(file, cur);
        var toCopy;
        if offset != 0 {
          if remaining < BLOCK_SIZE - offset {
            toCopy := remaining;
          } else {
            toCopy := BLOCK_SIZE - offset;
          }
        } else if remaining > BLOCK_SIZE {
          toCopy := BLOCK_SIZE;
        } else {
          toCopy := remaining;
        }
        ghost var d1, log1 := disk[..], log;
        StorePatch(f, cur, buf[done..done + toCopy]);
        var tmp := disk[bids[bidCount]].bytes;
        WriteBlock(bids[bidCount], DataBlk(Patched(tmp, offset, buf[done..done + toCopy])));
        StoredIs();
        LogGrowsOne(old(log), log1, disk[..]);
        SameTrans(d0, d1, disk[..], tree, f);
        PatchMore(d0, d1, disk[..], file, cur0, buf[..done], buf[done..done + toCopy]);
        assert buf[..done] + buf[done..done + toCopy] == buf[..done + toCopy];
        NextRound(cur, toCopy, remaining);
        NextChunk(cur, toCopy, remaining);
        offset := 0;
        remaining := remaining - toCopy;
        cur := cur + toCopy;
        done := done + toCopy;
        bidCount := bidCount + 1;
      }
      assert buf[..done] == buf;
      used := bidCount;
    }

    lemma StoredSound()
      requires Stored()
      ensures Sound(disk[..], tree, roles, spare)
    {
      hide Sound;
    }

    lemma StoredShape()
      requires Stored()
      ensures Shaped() && freemap[..] == MapOf(disk[..]) && sb.nfreemapBlocks == 1
    {
      hide Sound;
    }

    lemma StorePatch(f: nat, cur: nat, piece: seq<byte>)
      requires Stored() && f in tree.files && BlockOf(tree.files[f], cur) != 0
      requires cur % BLOCK_SIZE + |piece| <= BLOCK_SIZE && cur + |piece| <= tree.files[f].size
      ensures var b := BlockOf(tree.files[f], cur);
        && b < |disk[..]| && disk[b].DataBlk? && |disk[b].bytes| == BLOCK_SIZE
        && var d2 := disk[..][b := DataBlk(Patched(disk[b].bytes, cur % BLOCK_SIZE, piece))];
          && SafeImage(d2) && MapOf(d2) == MapOf(disk[..]) && Sound(d2, tree, roles, spare)
          && Patch(disk[..], d2, tree.files[f], cur, piece)
          && (forall g | g in tree.files && g != f :: SameBytes(disk[..], tree.files[g], d2, tree.files[g]))
      ensures freemap[..] == MapOf(disk[..]) && Shaped() && sb.nfreemapBlocks == 1
    {
      hide Sound, SafeImage, Patch, SameBytes, Patched;
      PatchSound(disk[..], tree, roles, spare, f, cur, piece);
    }

    /** Writes buf at the cursor and moves the cursor behind it. */
    method Write(fd: int, buf: seq<byte>) returns (ret: nat)
      requires Valid() && LiveFd(fd)
      requires Free() >= WriteNeeds(FdFile(fd), fdtable[fd].cur, |buf|)
      modifies disk, freemap, fdtable, `tree, `roles, `spare, `log
      ensures LiveFd(fd)
      ensures ret == |buf|
      ensures forall k | 0 <= k < MAX_OPENED_FILES && k != fd :: fdtable[k] == old(fdtable[k])
      ensures fdtable[fd] == old(fdtable[fd]).(inode := fdtable[fd].inode, cur := old(fdtable[fd].cur) + |buf|)
      ensures Files() == old(Files())[fdtable[fd].inodeBid := Overwrite(old(FdBytes(fd)), old(fdtable[fd].cur), buf)]
      ensures tree == WithFile(old(tree), fdtable[fd].inodeBid, FdFile(fd))
      ensures Reserved(old(FdFile(fd)), FdFile(fd), old(fdtable[fd].cur), |buf|)
      ensures OnlyIn(old(FdFile(fd)), FdFile(fd), old(fdtable[fd].cur) / BLOCK_SIZE, (old(fdtable[fd].cur) + |buf|) / BLOCK_SIZE)
      ensures RolesGrow(old(roles), roles, fdtable[fd].inodeBid)
      ensures Free() == old(Free()) - old(WriteNeeds(FdFile(fd), fdtable[fd].cur, |buf|))
      ensures Free() + Taken(FdFile(fd)) == old(Free() + Taken(FdFile(fd)))
      ensures Valid() && LogGrows(old(log), log) && spare == old(spare)
    {
      hide Stored, Sound, SafeImage, KeepsFiles, FreeCount, Marked, LogGrows, Entry, Missing, MapOf, RolesGrow, FrameCount, InChain, Reserved, Patch, SameBytes, FilesOf, Named, Sized, Taken, WriteNeeds, OnlyIn;
      ghost var f := fdtable[fd].inodeBid;
      ghost var d0, t0 := disk[..], tree;
      var cur := fdtable[fd].cur;
      ChainIsSized(tree, f);
      TailOf(f);
      var bids := Reserve(fd, cur, |buf|);
      ghost var d1, log1 := disk[..], log;
      ReservedSize(t0.files[f], tree.files[f], cur, |buf|);
      var end, _ := CopyIn(bids, cur, buf, f);
      fdtable[fd] := fdtable[fd].(cur := end);
      ret := end - cur;
      LogGrowsTrans(old(log), log1, log);
      WriteContents(d0, t0, d1, disk[..], tree, f, cur, buf);
      WriteNames(t0, tree, f);
    }

    lemma TailOf(f: nat)
      requires Stored() && f in tree.files
      ensures ZeroTail(disk[..], tree.files[f])
    {
      hide Consistent;
    }

    /** The copy loop of sfs_read, with the target moving along. */
    method CopyOut(bids: seq<nat>, cur0: nat, length: nat, buf: array<byte>, ghost f: nat) returns (cur: nat, ghost used: nat)
      requires Stored() && f in tree.files && cur0 + length <= tree.files[f].size && length <= buf.Length
      requires tree.files[f].size <= FRAME_BYTES * |tree.files[f].chain|
      requires |bids| == InChain(tree.files[f], cur0 / BLOCK_SIZE, (cur0 + length) / BLOCK_SIZE - cur0 / BLOCK_SIZE + 1)
      requires forall i | 0 <= i < |bids| :: bids[i] == Entry(tree.files[f], cur0 / BLOCK_SIZE + i) && bids[i] != 0
      requires Apart(buf)
      modifies buf
      ensures cur == cur0 + length && used == Rounds(cur0, length)
      ensures forall i | 0 <= i < buf.Length ::
                buf[i] == if i < length then At(disk[..], tree.files[f], cur0 + i) else old(buf[i])
    {
      hide Stored, Entry, InChain, At, Rounds;
      ghost var file := tree.files[f];
      NoRounds();
      cur := cur0;
      var remaining, offset, done, bidCount := length, cur0 % BLOCK_SIZE, 0, 0;
      while remaining > 0
        invariant 0 <= done && 0 <= remaining && done + remaining == length && cur == cur0 + done
        invariant bidCount + Rounds(cur, remaining) == Rounds(cur0, length)
        invariant remaining > 0 ==> offset == cur % BLOCK_SIZE && bidCount == cur / BLOCK_SIZE - cur0 / BLOCK_SIZE
        invariant Stored() && tree == old(tree) && disk[..] == old(disk[..])
        invariant forall i | 0 <= i < buf.Length :: buf[i] == if i < done then At(disk[..], file, cur0 + i) else old(buf[i])
      {
        BidIsThere(file, cur0, cur, length);
        assert bids[bidCount] == Entry(file, cur0 / BLOCK_SIZE + bidCount) == BlockOf(file, cur);
        BlockIsBytes(f, cur);
        var tmp := disk[bids[bidCount]].bytes;
        var toCopy;
        if offset != 0 {
          if remaining < BLOCK_SIZE - offset {
            toCopy := remaining;
          } else {
            toCopy := BLOCK_SIZE - offset;
          }
        } else if remaining > BLOCK_SIZE {
          toCopy := BLOCK_SIZE;
        } else {
          toCopy := remaining;
        }
        forall i | 0 <= i < toCopy {
          buf[done + i] := tmp[offset + i];
        }
        NextRound(cur, toCopy, remaining);
        NextChunk(cur, toCopy, remaining);
        offset := 0;
        remaining := remaining - toCopy;
        cur := cur + toCopy;
        done := done + toCopy;
        bidCount := bidCount + 1;
      }
      used := bidCount;
    }

    /** A caller's buffer is none of the file system's tables. */
    ghost predicate Apart(buf: array<byte>) {
      disk as object != buf && freemap as object != buf && fdtable as object != buf
    }

    lemma BlockIsBytes(f: nat, cur: nat)
      requires Stored() && f in tree.files && BlockOf(tree.files[f], cur) != 0
      ensures disk.Length == BLOCKS
      ensures var b := BlockOf(tree.files[f], cur); var o := cur % BLOCK_SIZE;
        && b < BLOCKS && disk[b].DataBlk? && |disk[b].bytes| == BLOCK_SIZE
        && forall i | o <= i < BLOCK_SIZE :: disk[b].bytes[i] == At(disk[..], tree.files[f], cur + (i - o))
    {
      hide Sound, At, BlockOf, Marked;
      SoundFacts(disk[..], tree, roles, spare);
      BlockBytes(disk[..], tree, roles, f, cur, 0);
      forall i | cur % BLOCK_SIZE <= i < BLOCK_SIZE
        ensures disk[BlockOf(tree.files[f], cur)].bytes[i] == At(disk[..], tree.files[f], cur + (i - cur % BLOCK_SIZE))
      {
        BlockBytes(disk[..], tree, roles, f, cur, i);
      }
    }

    /** Reads from the cursor on, at most up to the end of the file, and moves the cursor behind what was read. */
    method Read(fd: int, buf: array<byte>, length: nat) returns (ret: nat)
      requires Valid() && LiveFd(fd) && Apart(buf) && length <= buf.Length
      requires Free() >= ReadNeeds(FdFile(fd), fdtable[fd].cur, length)
      modifies buf, disk, freemap, fdtable, `tree, `roles, `spare, `log
      ensures LiveFd(fd)
      ensures forall k | 0 <= k < MAX_OPENED_FILES && k != fd :: fdtable[k] == old(fdtable[k])
      ensures fdtable[fd] == old(fdtable[fd]).(cur := old(fdtable[fd].cur) + ret)
      ensures ret == ReadLength(old(FdFile(fd)).size, old(fdtable[fd].cur), length)
      ensures buf[..ret] == ReadAt(old(FdBytes(fd)), old(fdtable[fd].cur), length)
      ensures var s, cur := old(FdBytes(fd)), old(fdtable[fd].cur);
        && (cur + length <= |s| ==> ret == length && buf[..ret] == s[cur..cur + length])
        && (cur < |s| <= cur + length ==> ret == |s| - cur && buf[..ret] == s[cur..])
        && (cur >= |s| ==> ret == 0)
      ensures forall i | ret <= i < buf.Length :: buf[i] == old(buf[i])
      ensures Files() == old(Files())
      ensures tree == WithFile(old(tree), fdtable[fd].inodeBid, FdFile(fd))
      ensures Reserved(old(FdFile(fd)), FdFile(fd), 0, 0)
      ensures OnlyIn(old(FdFile(fd)), FdFile(fd), old(fdtable[fd].cur) / BLOCK_SIZE, (old(fdtable[fd].cur) + ret) / BLOCK_SIZE)
      ensures RolesGrow(old(roles), roles, fdtable[fd].inodeBid)
      ensures Free() == old(Free() - ReadNeeds(FdFile(fd), fdtable[fd].cur, length))
      ensures Valid() && LogGrows(old(log), log) && spare == old(spare)
    {
      hide Stored, Sound, SafeImage, KeepsFiles, FreeCount, Marked, LogGrows, Entry, Missing, MapOf, RolesGrow, FrameCount, InChain, Reserved, At, FilesOf, Named, Sized, AsInode, OnlyIn, Filled;
      ghost var f := fdtable[fd].inodeBid;
      ghost var d0, t0 := disk[..], tree;
      var cur := fdtable[fd].cur;
      ChainIsSized(tree, f);
      InodeBlockFacts(f);
      var inode := AsInode(disk[fdtable[fd].inodeBid]).inode;
      var remaining := ReadLength(inode.size, cur, length);
      var bids := GetFileContent(fd, cur, remaining);
      MissingInChain(t0.files[f], cur / BLOCK_SIZE, (cur + remaining) / BLOCK_SIZE - cur / BLOCK_SIZE + 1);
      ReadKeeps(t0.files[f], tree.files[f], cur / BLOCK_SIZE, |bids|, (cur + remaining) / BLOCK_SIZE - cur / BLOCK_SIZE + 1);
      InChainAtMost(t0.files[f], cur / BLOCK_SIZE, (cur + remaining) / BLOCK_SIZE - cur / BLOCK_SIZE + 1);
      OnlyInFilled(t0.files[f], t0.files[f], tree.files[f], cur / BLOCK_SIZE, |bids|, (cur + remaining) / BLOCK_SIZE);
      ReadNames(t0, tree, f);
      SameContents(d0, t0, disk[..], tree);
      if remaining > 0 {
        var end, _ := CopyOut(bids, cur, remaining, buf, f);
        fdtable[fd] := fdtable[fd].(cur := end);
      }
      ret := remaining;
      KeepsOne(d0, t0, disk[..], tree, f);
      ReadIsBytes(d0, t0, disk[..], tree, f, cur, length, buf[..ret]);
      ReadGives(old(FdBytes(fd)), cur, length);
    }

    /** Moves the cursor; a target before the beginning of the file is the beginning. */
    method Seek(fd: int, relative: int, loc: Whence) returns (ret: int)
      requires Valid() && LiveFd(fd)
      modifies fdtable
      ensures ret == 0 && Valid() && LiveFd(fd)
      ensures forall k | 0 <= k < MAX_OPENED_FILES && k != fd :: fdtable[k] == old(fdtable[k])
      ensures var base := match loc case SeekSet => 0 case SeekCur => old(fdtable[fd].cur) case SeekEnd => |old(FdBytes(fd))|;
        fdtable[fd] == old(fdtable[fd]).(cur := if base + relative < 0 then 0 else base + relative)
    {
      hide Sound, Named, Sized, AsInode;
      InodeBlockFacts(fdtable[fd].inodeBid);
      var newCur;
      match loc {
        case SeekSet =>
          newCur := relative;
        case SeekCur =>
          newCur := fdtable[fd].cur + relative;
        case SeekEnd =>
          var inode := AsInode(disk[fdtable[fd].inodeBid]).inode;
          newCur := inode.size + relative;
      }
      if newCur < 0 {
        fdtable[fd] := fdtable[fd].(cur := 0);
      } else {
        fdtable[fd] := fdtable[fd].(cur := newCur);
      }
      return 0;
    }

    // ---- opening, closing and removing files ----

    /** The directory exists, and there is room for the file if it has to be created. */
    ghost predicate CanOpen(dirname: string, name: string)
      reads this, disk
    {
      HasDir(tree, dirname) && (FileOf(tree, dirname, name) == 0 ==> FirstFree(tree, dirname) < NINODES && Free() >= 3)
    }

    /** The descriptor is the first that is not in use. */
    static ghost predicate IsFirstFd(table: seq<Fd>, fd: int) {
      0 <= fd < |table| && table[fd].valid == 0 && forall k | 0 <= k < fd :: table[k].valid != 0
    }

    /** All descriptors are in use. */
    ghost predicate AllInUse()
      reads fdtable
    {
      fdtable.Length == MAX_OPENED_FILES && forall k | 0 <= k < MAX_OPENED_FILES :: fdtable[k].valid != 0
    }

    /** The first descriptor that is not in use, or -1. */
    method FreeFd() returns (fd: int)
      requires fdtable.Length == MAX_OPENED_FILES
      ensures fd == -1 ==> forall k | 0 <= k < MAX_OPENED_FILES :: fdtable[k].valid != 0
      ensures fd != -1 ==> 0 <= fd < MAX_OPENED_FILES && fdtable[fd].valid == 0
      ensures forall k | 0 <= k < fd :: fdtable[k].valid != 0
      ensures fd >= -1
    {
      fd := 0;
      while fd < MAX_OPENED_FILES
        invariant 0 <= fd < MAX_OPENED_FILES
        invariant forall k | 0 <= k < fd :: fdtable[k].valid != 0
        decreases MAX_OPENED_FILES - fd
      {
        if fdtable[fd].valid == 0 {
          return;
        } else if fd == MAX_OPENED_FILES - 1 {
          return -1;
        } else {
          fd := fd + 1;
        }
      }
    }

    /** The scan of sfs_open over the slots of a directory. */
    method ScanSlots(dirBid: nat, name: string, ghost i: nat) returns (found: bool, inodeBid: nat, freeInode: int)
      requires Stored() && i < |tree.dirs| && tree.dirs[i].bid == dirBid
      ensures |tree.dirs[i].slots| == NINODES
      ensures var s := SlotIndex(tree, tree.dirs[i].slots, name, 0);
        && (found <==> s < NINODES)
        && (found ==> inodeBid == tree.dirs[i].slots[s])
      ensures var h := FreeSlot(tree.dirs[i].slots, 0);
        !found ==> freeInode == if h < NINODES then h else -1
    {
      hide Stored, AsInode, AsDir;
      DirFacts(i);
      var dir := AsDir(disk[dirBid]);
      var count := 0;
      found, inodeBid, freeInode := false, 0, -1;
      while count < NINODES
        invariant 0 <= count <= NINODES && !found
        invariant SlotIndex(tree, tree.dirs[i].slots, name, 0) == SlotIndex(tree, tree.dirs[i].slots, name, count)
        invariant freeInode == -1 ==> FreeSlot(tree.dirs[i].slots, 0) == FreeSlot(tree.dirs[i].slots, count)
        invariant freeInode != -1 ==> freeInode == FreeSlot(tree.dirs[i].slots, 0) < count
      {
        inodeBid := dir.inodes[count];
        if inodeBid == 0 {
          if freeInode == -1 {
            freeInode := count;
          }
          count := count + 1;
          continue;
        }
        SlotIsFile(i, count);
        InodeBlockFacts(inodeBid);
        var inode := AsInode(disk[inodeBid]).inode;
        if inode.fileName == name {
          found := true;
          return;
        }
        count := count + 1;
      }
    }

    /** Every used slot holds a file, and every frame and content block belongs to one. */
    lemma AllKnown()
      requires Stored()
      ensures SlotsAreFiles(tree) && RolesAreOfFiles(tree, roles)
    {
      hide Sound, Marked, AsDir, Holds;
      SoundFacts(disk[..], tree, roles, spare);
      SlotsKnown(disk[..], tree, roles);
      RolesKnown(disk[..], tree, roles);
    }

    lemma DirFacts(i: nat)
      requires Stored() && i < |tree.dirs|
      ensures disk.Length == BLOCKS && |tree.dirs[i].slots| == NINODES && 1 < tree.dirs[i].bid < BLOCKS
      ensures AsDir(disk[tree.dirs[i].bid]) == DirBlk(DirAt(tree, i + 1), tree.dirs[i].name, tree.dirs[i].slots)
      ensures tree.dirs[i].bid in roles && roles[tree.dirs[i].bid] == RDir(i)
    {
      hide Sound, Marked, AsDir;
      SoundFacts(disk[..], tree, roles, spare);
      DirBlockFacts(disk[..], tree, roles, i);
    }

    lemma SlotIsFile(i: nat, s: nat)
      requires Stored() && i < |tree.dirs| && s < NINODES
      requires |tree.dirs[i].slots| == NINODES && tree.dirs[i].slots[s] != 0
      ensures var f := tree.dirs[i].slots[s];
        f in tree.files && f in roles && roles[f] == RInode(tree.dirs[i].bid, s)
    {
      hide Sound, Marked, AsDir;
      SoundFacts(disk[..], tree, roles, spare);
      DirBlockFacts(disk[..], tree, roles, i);
    }

    /** Creates a file in slot s of directory i: an inode, one frame, and one content block. */
    method CreateFile(dirBid: nat, s: nat, name: string, ghost i: nat) returns (inodeBid: nat, inode: InodeRec)
      requires Stored() && Mounted() && i < |tree.dirs| && tree.dirs[i].bid == dirBid
      requires s < NINODES && |tree.dirs[i].slots| == NINODES && tree.dirs[i].slots[s] == 0
      requires Free() >= 3
      modifies disk, freemap, `tree, `roles, `spare, `log
      ensures Stored() && Mounted() && LogGrows(old(log), log) && spare == old(spare)
      ensures inodeBid !in old(roles) && inodeBid != 0 && inodeBid !in old(tree).files
      ensures inodeBid in tree.files && Created(old(tree), tree, i, s, inodeBid, name) && inode == InodeOf(tree.files[inodeBid])
      ensures RolesGrow(old(roles)[inodeBid := RInode(dirBid, s)], roles, inodeBid)
      ensures KeepsFiles(old(disk[..]), old(tree), disk[..], tree)
      ensures Free() == old(Free()) - 3
    {
      hide Stored, Sound, SafeImage, KeepsFiles, FreeCount, IsLeastFree, MarkedImage, Marked, LogGrows, MapOf, AsFrame, AsInode, AsDir, RolesGrow, LinkToFrame, Created, Fills;
      ghost var d0, t0, r0, bid := disk[..], tree, roles, dirBid;
      inodeBid := CreateInode(dirBid, s, i);
      ghost var d1, t1, r1, log1, f := disk[..], tree, roles, log, inodeBid;
      var frameBid := TakeFree();
      ghost var d2, log2 := disk[..], log;
      LogGrowsTrans(old(log), log1, log2);
      KeepsTrans(d0, t0, d1, t1, d2, t1);
      InodeBlockFacts(f);
      StoreLinkFrame(f, frameBid, name);
      FirstLink(t1, f, frameBid, name);
      inode := InodeRec(0, frameBid, name);
      WriteBlock(inodeBid, InodeBlk(inode));
      tree := WithFile(tree, f, WithFrame(tree.files[f], frameBid).(name := name));
      roles := roles[frameBid := RFrame(f, 0)];
      spare := spare - {frameBid};
      assert spare == old(spare);
      StoredIs();
      LogGrowsOne(old(log), log2, disk[..]);
      ghost var d3, t3, r3, log3 := disk[..], tree, roles, log;
      KeepsTrans(d0, t0, d2, t1, d3, t3);
      OneRole(r1, f, frameBid, 0);
      FillFirst(f, frameBid);
      LogGrowsTrans(old(log), log3, log);
      KeepsTrans(d0, t0, d3, t3, disk[..], tree);
      RolesGrowTrans(r1, r3, roles, f);
      CreatedAll(t0, t1, t3, tree, i, s, f, frameBid, name);
    }

    /** The first two writes of a creation: a cleared block, and the slot that names it. */
    method CreateInode(dirBid: nat, s: nat, ghost i: nat) returns (inodeBid: nat)
      requires Stored() && i < |tree.dirs| && tree.dirs[i].bid == dirBid
      requires s < NINODES && |tree.dirs[i].slots| == NINODES && tree.dirs[i].slots[s] == 0
      requires Free() >= 1
      modifies disk, freemap, `tree, `roles, `spare, `log
      ensures Stored() && LogGrows(old(log), log) && spare == old(spare)
      ensures inodeBid !in old(roles) && inodeBid > 1 && inodeBid !in old(tree).files
      ensures tree == AddedFile(old(tree), i, s, inodeBid) && roles == old(roles)[inodeBid := RInode(dirBid, s)]
      ensures KeepsFiles(old(disk[..]), old(tree), disk[..], tree)
      ensures Free() == old(Free()) - 1
    {
      hide Stored, Sound, SafeImage, KeepsFiles, FreeCount, IsLeastFree, MarkedImage, Marked, LogGrows, MapOf, AsDir;
      ghost var d0, t0 := disk[..], tree;
      DirFacts(i);
      inodeBid := TakeFree();
      ghost var d1, log1 := disk[..], log;
      StoreAddFile(i, s, inodeBid);
      DirFacts(i);
      var dir := AsDir(disk[dirBid]);
      WriteBlock(dirBid, dir.(inodes := dir.inodes[s := inodeBid]));
      roles := roles[inodeBid := RInode(dirBid, s)];
      tree := AddedFile(tree, i, s, inodeBid);
      spare := spare - {inodeBid};
      assert spare == old(spare);
      StoredIs();
      LogGrowsOne(old(log), log1, disk[..]);
      KeepsTrans(d0, t0, d1, t0, disk[..], tree);
    }

    lemma StoreAddFile(i: nat, s: nat, b: nat)
      requires Stored() && b in spare && b < BLOCKS && disk[b] == ZERO_BLOCK
      requires i < |tree.dirs| && s < |tree.dirs[i].slots| && tree.dirs[i].slots[s] == 0
      ensures tree.dirs[i].bid < |disk[..]| && b !in tree.files
      ensures var d2 := disk[..][tree.dirs[i].bid := DirImage(tree, i, tree.dirs[i].name, tree.dirs[i].slots[s := b])];
        && SafeImage(d2) && MapOf(d2) == MapOf(disk[..]) && KeepsFiles(disk[..], tree, d2, AddedFile(tree, i, s, b))
        && Sound(d2, AddedFile(tree, i, s, b), roles[b := RInode(tree.dirs[i].bid, s)], spare - {b})
        && freemap[..] == MapOf(disk[..]) && Shaped() && sb.nfreemapBlocks == 1
    {
      hide Sound, Marked, SafeImage, KeepsFiles;
      SoundFacts(disk[..], tree, roles, spare);
      AddFileSound(disk[..], tree, roles, spare, i, s, b);
    }

    /** The last two writes of a creation: a cleared block, and the first entry of the frame. */
    method FillFirst(ghost f: nat, frameBid: nat)
      requires Stored() && f in tree.files && |tree.files[f].chain| == 1
      requires tree.files[f].chain[0] == FrameNode(frameBid, Zeros(FRAME_COUNT))
      requires Free() >= 1
      modifies disk, freemap, `tree, `roles, `spare, `log
      ensures Stored() && LogGrows(old(log), log) && spare == old(spare)
      ensures f in tree.files && FirstFilled(old(tree), tree, f, frameBid)
      ensures RolesGrow(old(roles), roles, f)
      ensures KeepsFiles(old(disk[..]), old(tree), disk[..], tree)
      ensures Free() == old(Free()) - 1
    {
      hide Stored, Sound, SafeImage, KeepsFiles, FreeCount, IsLeastFree, MarkedImage, Marked, LogGrows, MapOf, AsFrame, Fills, RolesGrow;
      ghost var d0, t0, r0 := disk[..], tree, roles;
      FrameBlockFacts(f, 0);
      var contentBid := TakeFree();
      ghost var d1, log1 := disk[..], log;
      assert disk[frameBid] == d0[frameBid];
      var frame := AsFrame(disk[frameBid]);
      ghost var extra := map[contentBid := RData(f, 0, 0)];
      FillsNone(Zeros(FRAME_COUNT), f, 0);
      FillsMore(Zeros(FRAME_COUNT), Zeros(FRAME_COUNT), map[], f, 0, 0, contentBid);
      assert map[][contentBid := RData(f, 0, 0)] == extra;
      StoreFill(f, 0, frame.content[0 := contentBid], extra);
      WriteBlock(frameBid, frame.(content := frame.content[0 := contentBid]));
      tree := WithFile(tree, f, WithContent(tree.files[f], 0, frame.content[0 := contentBid]));
      roles := roles + extra;
      spare := spare - extra.Keys;
      assert spare == old(spare);
      StoredIs();
      LogGrowsOne(old(log), log1, disk[..]);
      KeepsTrans(d0, t0, d1, t0, disk[..], tree);
      FilledRoles(r0, extra, f, 0, Zeros(FRAME_COUNT), frame.content[0 := contentBid]);
    }

    /**
     Opens a file, creating it when the directory has no file of that name. When
     some descriptor is free, the code demands that the directory exists, and
     that it has a free slot and the disk three free blocks when the file has to
     be created.
     */
    method Open(dirname: string, name: string) returns (fd: int)
      requires Valid()
      requires !AllInUse() ==> CanOpen(dirname, name)
      modifies disk, freemap, fdtable, `tree, `roles, `spare, `log
      ensures fd == -1 <==> old(AllInUse())
      ensures fd == -1 ==> disk[..] == old(disk[..]) && tree == old(tree) && roles == old(roles) && fdtable[..] == old(fdtable[..])
      ensures fd != -1 ==>
                && 0 <= fd < MAX_OPENED_FILES && IsFirstFd(old(fdtable[..]), fd) && LiveFd(fd)
                && (forall k | 0 <= k < MAX_OPENED_FILES && k != fd :: fdtable[k] == old(fdtable[k]))
                && fdtable[fd] == Fd(InodeOf(FdFile(fd)), FileOf(tree, dirname, name), DirAt(tree, FindDir(old(tree), dirname)), 0, 1)
      ensures fd != -1 ==> fdtable[fd].inodeBid != 0 && InDirectory(roles, fdtable[fd].inodeBid, fdtable[fd].dirBid)
      ensures old(FileOf(tree, dirname, name)) != 0 ==> disk[..] == old(disk[..]) && tree == old(tree) && roles == old(roles)
      ensures fd != -1 && old(FileOf(tree, dirname, name)) == 0 ==>
                && CreatedIn(old(tree), old(roles), tree, roles, fdtable[fd].inodeBid, dirname, name)
                && Files() == old(Files())[fdtable[fd].inodeBid := []]
                && Free() == old(Free()) - 3
      ensures Valid() && LogGrows(old(log), log) && spare == old(spare)
    {
      hide Stored, Sound, SafeImage, KeepsFiles, FreeCount, Marked, LogGrows, MapOf, AsInode, RolesGrow, Created, Named, Sized, FilesOf, Without, SlotIndex, FreeSlot;
      NoLog(log);
      StoredShape();
      fd := FreeFd();
      if fd == -1 {
        return;
      }
      ghost var d0, t0, r0, i := disk[..], tree, roles, FindDir(tree, dirname);
      HasDirIndex(t0, dirname);
      var dirBid := FindDirBlock(dirname);
      var found, inodeBid, freeInode := ScanSlots(dirBid, name, i);
      FileOfSlots(t0, dirname, name);
      AllKnown();
      var inode;
      if found {
        SlotIsFile(i, SlotIndex(t0, t0.dirs[i].slots, name, 0));
        InodeBlockFacts(inodeBid);
        inode := AsInode(disk[inodeBid]).inode;
      } else {
        inodeBid, inode := CreateFile(dirBid, freeInode, name, i);
        CreatedNames(t0, tree, i, freeInode, inodeBid, dirname, name);
        CreatedRoles(t0, r0, roles, inodeBid, RInode(dirBid, freeInode));
        GrownRole(r0[inodeBid := RInode(dirBid, freeInode)], roles, inodeBid);
        CreatedContents(d0, t0, disk[..], tree, i, freeInode, inodeBid, name);
      }
      fdtable[fd] := Fd(inode, inodeBid, dirBid, 0, 1);
    }

    /** Marks a descriptor as not in use. */
    method Close(fd: int) returns (ret: int)
      requires fdtable.Length == MAX_OPENED_FILES && 0 <= fd < MAX_OPENED_FILES
      modifies fdtable
      ensures ret == 0 && fdtable[..] == old(fdtable[..])[fd := old(fdtable[fd]).(valid := 0)]
    {
      fdtable[fd] := fdtable[fd].(valid := 0);
      return 0;
    }

    /** Frees a marked block that has no place in the tree. */
    method FreeSpare(bid: nat)
      requires Stored() && bid in spare && bid < BLOCKS
      modifies disk, freemap, `spare, `log
      ensures Stored() && LogGrows(old(log), log) && spare == old(spare) - {bid}
      ensures Free() == old(Free()) + 1
      ensures forall b | 1 < b < BLOCKS :: disk[b] == old(disk[b])
      ensures KeepsFiles(old(disk[..]), tree, disk[..], tree)
    {
      hide Sound, SafeImage, KeepsFiles, FreeCount, Marked, LogGrows, ClearMark;
      SoundFacts(disk[..], tree, roles, spare);
      FreeSound(disk[..], tree, roles, spare, bid);
      NoLog(log);
      ghost var d0 := disk[..];
      FreeBlock(bid);
      assert disk[..] == ClearedImage(d0, bid);
      spare := spare - {bid};
      LogGrowsOne(old(log), old(log), disk[..]);
    }

    /** The scan of sfs_remove for the slot of an inode, and the write that clears it. */
    method ClearSlot(dirBid: nat, inodeBid: nat, ghost i: nat, ghost s: nat)
      requires Stored() && i < |tree.dirs| && tree.dirs[i].bid == dirBid && |tree.dirs[i].slots| == NINODES
      requires s < NINODES && tree.dirs[i].slots[s] == inodeBid && inodeBid != 0
      requires forall k | 0 <= k < s :: tree.dirs[i].slots[k] != inodeBid
      modifies disk, `tree, `roles, `spare, `log
      ensures Stored() && LogGrows(old(log), log)
      ensures tree == RemovedFile(old(tree), i, s, inodeBid) && roles == Without(old(roles), inodeBid)
      ensures spare == old(spare) + (old(roles).Keys - roles.Keys)
      ensures forall b | 0 <= b < BLOCKS && b != dirBid :: disk[b] == old(disk[b])
      ensures MapOf(disk[..]) == MapOf(old(disk[..]))
      ensures KeepsFiles(old(disk[..]), tree, disk[..], tree)
    {
      hide Stored, Sound, SafeImage, KeepsFiles, Marked, LogGrows, MapOf, AsDir, Without;
      DirFacts(i);
      StoreUnlink(i, s, inodeBid);
      NoLog(log);
      var dir := AsDir(disk[dirBid]);
      var count := 0;
      while count < NINODES && dir.inodes[count] != inodeBid
        invariant 0 <= count <= s
      {
        count := count + 1;
      }
      WriteBlock(dirBid, dir.(inodes := dir.inodes[count := 0]));
      LogGrowsOne(old(log), old(log), disk[..]);
      spare := spare + (roles.Keys - Without(roles, inodeBid).Keys);
      tree := RemovedFile(tree, i, s, inodeBid);
      roles := Without(roles, inodeBid);
      StoredIs();
    }

    lemma StoreUnlink(i: nat, s: nat, f: nat)
      requires Stored() && i < |tree.dirs| && s < NINODES && |tree.dirs[i].slots| == NINODES
      requires tree.dirs[i].slots[s] == f && f != 0
      ensures tree.dirs[i].bid < |disk[..]|
      ensures var d2 := disk[..][tree.dirs[i].bid := DirImage(tree, i, tree.dirs[i].name, tree.dirs[i].slots[s := 0])];
        var t2 := RemovedFile(tree, i, s, f); var r2 := Without(roles, f);
        && SafeImage(d2) && MapOf(d2) == MapOf(disk[..]) && KeepsFiles(disk[..], t2, d2, t2)
        && Sound(d2, t2, r2, spare + (roles.Keys - r2.Keys))
        && freemap[..] == MapOf(disk[..]) && Shaped() && sb.nfreemapBlocks == 1
    {
      hide Sound, Marked, SafeImage, KeepsFiles, Without;
      SoundFacts(disk[..], tree, roles, spare);
      UnlinkFileSound(disk[..], tree, roles, spare, i, s, f);
    }

    /** Frees the content blocks of one frame, and then the frame. */
    method FreeFrame(frameBid: nat, ghost was: Image, ghost f: nat, ghost j: nat, ghost kept: set<nat>) returns (next: nat)
      requires Stored() && FreeingFrom(was, f, j, 0, kept)
      requires j < |was.t.files[f].chain| && was.t.files[f].chain[j].bid == frameBid
      modifies disk, freemap, `spare, `log
      ensures Stored() && LogGrows(old(log), log) && FreeingFrom(was, f, j + 1, 0, kept)
      ensures next == FrameAt(was.t.files[f], j + 1)
      ensures KeepsFiles(old(disk[..]), tree, disk[..], tree)
    {
      hide Stored, SafeImage, KeepsFiles, FreeCount, Marked, LogGrows, AsFrame, Consistent, Rest, FilePlaced, FileFits;
      ghost var d0 := disk[..];
      NoLog(log);
      AllKeepNow();
      LengthFact(was.d, was.t, was.r);
      FileFacts(was.d, was.t, was.r, f);
      FrameFacts(was.d, was.t, was.r, f, j);
      assert disk[frameBid] == was.d[frameBid];
      var frame := AsFrame(disk[frameBid]);
      var i := 0;
      while i < FRAME_COUNT
        invariant 0 <= i <= FRAME_COUNT
        invariant Stored() && LogGrows(old(log), log) && FreeingFrom(was, f, j, i, kept)
        invariant KeepsFiles(d0, tree, disk[..], tree)
      {
        var contentBlk := frame.content[i];
        DataFacts(was.d, was.t, was.r, f, j, i);
        RestData(was, f, j, i);
        if contentBlk != 0 {
          ghost var d1, log1 := disk[..], log;
          FreeSpare(contentBlk);
          LogGrowsTrans(old(log), log1, log);
          KeepsTrans(d0, tree, d1, tree, disk[..], tree);
        }
        i := i + 1;
      }
      RestFrame(was, f, j);
      ghost var d1, log1 := disk[..], log;
      FreeSpare(frameBid);
      LogGrowsTrans(old(log), log1, log);
      KeepsTrans(d0, tree, d1, tree, disk[..], tree);
      next := frame.next;
    }

    /** Of the blocks that file f had in an earlier image, those from entry k of frame j on are still to be freed. */
    ghost predicate FreeingFrom(was: Image, f: nat, j: nat, k: nat, kept: set<nat>)
      reads this, disk
    {
      && Consistent(was.d, was.t, was.r) && f in was.t.files && disk.Length == BLOCKS
      && kept !! was.r.Keys
      && spare == kept + Rest(was.r, f, j, k)
      && forall b | b in was.r && b < BLOCKS && (b == f || OfFile(was.r[b], f)) :: disk[b] == was.d[b]
    }

    lemma AllKeepNow()
      requires Stored()
      ensures KeepsFiles(disk[..], tree, disk[..], tree)
    {
      hide Sound, Marked, KeepsFiles;
      SoundFacts(disk[..], tree, roles, spare);
      AllKeep(disk[..], tree, roles, disk[..]);
    }

    /**
     Removes the file that a descriptor names, with all its blocks. The
     descriptor itself stays as it is: the code resets only a copy of it.
     Clearing a second slot of the directory is left out (a repair).
     */
    method Remove(fd: int) returns (ret: int)
      requires Valid() && LiveFd(fd)
      requires InDirectory(roles, fdtable[fd].inodeBid, fdtable[fd].dirBid)
      modifies disk, freemap, `tree, `roles, `spare, `log
      ensures ret == 0
      ensures RemovedFrom(old(tree), old(roles), tree, fdtable[fd].inodeBid)
      ensures roles == Without(old(roles), fdtable[fd].inodeBid)
      ensures Files() == old(Files()) - {fdtable[fd].inodeBid}
      ensures Valid() && LogGrows(old(log), log) && spare == old(spare)
    {
      hide Stored, SafeImage, KeepsFiles, FreeCount, Marked, LogGrows, AsInode, Consistent, Rest, Without, FilesOf, Named, Sized;
      ghost var was := Image(disk[..], tree, roles);
      var dirBid := fdtable[fd].dirBid;
      var inodeBid := fdtable[fd].inodeBid;
      ghost var kept := spare;
      NowConsistent();
      var i, s := RemovePlace(inodeBid);
      InodeBlockFacts(inodeBid);
      ClearSlot(dirBid, inodeBid, i, s);
      ghost var log1, d1 := log, disk[..];
      assert disk[inodeBid] == was.d[inodeBid];
      RestAll(was, inodeBid, kept);
      var inode := AsInode(disk[inodeBid]).inode;
      var nextFrame := inode.firstFrame;
      ghost var j := 0;
      AllKeepNow();
      LastFrames(was, inodeBid, 0);
      while nextFrame != 0
        invariant 0 <= j <= |was.t.files[inodeBid].chain| && nextFrame == FrameAt(was.t.files[inodeBid], j)
        invariant nextFrame != 0 <==> j < |was.t.files[inodeBid].chain|
        invariant Stored() && LogGrows(old(log), log) && FreeingFrom(was, inodeBid, j, 0, kept)
        invariant tree == RemovedFile(was.t, i, s, inodeBid) && roles == Without(was.r, inodeBid)
        invariant KeepsFiles(d1, tree, disk[..], tree)
        decreases |was.t.files[inodeBid].chain| - j
      {
        ghost var d2, log2 := disk[..], log;
        nextFrame := FreeFrame(nextFrame, was, inodeBid, j, kept);
        LogGrowsTrans(old(log), log2, log);
        KeepsTrans(d1, tree, d2, tree, disk[..], tree);
        j := j + 1;
        LastFrames(was, inodeBid, j);
      }
      RestNone(was, inodeBid);
      ghost var d2, log2 := disk[..], log;
      FreeSpare(inodeBid);
      LogGrowsTrans(old(log), log2, log);
      KeepsTrans(d1, tree, d2, tree, disk[..], tree);
      KeepsTrans(was.d, tree, d1, tree, disk[..], tree);
      RemovedNames(was.t, i, s, inodeBid);
      RemovedContents(was.d, was.t, disk[..], i, s, inodeBid);
      return 0;
    }

    lemma NowConsistent()
      requires Stored()
      ensures Consistent(disk[..], tree, roles) && disk.Length == BLOCKS && spare !! roles.Keys
      ensures 0 in roles && roles[0] == RSuper && 1 in roles && roles[1] == RFreemap
    {
      hide Sound, Marked, Consistent;
      SoundFacts(disk[..], tree, roles, spare);
    }

    /** The directory and slot of a file; no earlier slot of the directory holds it. */
    lemma RemovePlace(f: nat) returns (i: nat, s: nat)
      requires Stored() && f in tree.files
      ensures f in roles && roles[f].RInode? && roles[f].dir in roles && roles[roles[f].dir] == RDir(i) && roles[f].slot == s
      ensures i < |tree.dirs| && tree.dirs[i].bid == roles[f].dir && |tree.dirs[i].slots| == NINODES
      ensures s < NINODES && tree.dirs[i].slots[s] == f && f != 0
      ensures forall k | 0 <= k < s :: tree.dirs[i].slots[k] != f
    {
      hide Sound, Marked, AsDir, Consistent, Holds;
      SoundFacts(disk[..], tree, roles, spare);
      FileFacts(disk[..], tree, roles, f);
      BlockFacts(disk[..], tree, roles, f);
      i, s := roles[roles[f].dir].idx, roles[f].slot;
      BlockFacts(disk[..], tree, roles, roles[f].dir);
      DirBlockFacts(disk[..], tree, roles, i);
      UsedIsPositive(disk[..], tree, roles, f);
    }

    lemma FrameBlockFacts(f: nat, j: nat)
      requires Stored() && f in tree.files && j < |tree.files[f].chain|
      ensures disk.Length == BLOCKS && FullRows(tree.files[f])
      ensures var bid := tree.files[f].chain[j].bid;
        && 1 < bid < BLOCKS && bid in roles && roles[bid] == RFrame(f, j)
        && AsFrame(disk[bid]) == FrameBlk(FrameAt(tree.files[f], j + 1), tree.files[f].chain[j].content)
      ensures |tree.files[f].chain[j].content| == FRAME_COUNT
    {
      hide Sound, Marked, AsFrame;
      SoundFacts(disk[..], tree, roles, spare);
      FrameFacts(disk[..], tree, roles, f, j);
      RowsAreFull(disk[..], tree, roles, f);
    }

    lemma StoreFill(f: nat, j: nat, content: seq<nat>, extra: map<nat, Role>)
      requires Stored() && f in tree.files && j < |tree.files[f].chain|
      requires Fills(tree.files[f].chain[j].content, content, extra, f, j)
      requires forall b | b in extra :: b in spare && b < BLOCKS && disk[b] == ZERO_BLOCK
      ensures tree.files[f].chain[j].bid < |disk[..]|
      ensures var d2 := disk[..][tree.files[f].chain[j].bid := FrameBlk(FrameAt(tree.files[f], j + 1), content)];
        var t2 := WithFile(tree, f, WithContent(tree.files[f], j, content));
        && SafeImage(d2) && MapOf(d2) == MapOf(disk[..]) && KeepsFiles(disk[..], tree, d2, t2)
        && Sound(d2, t2, roles + extra, spare - extra.Keys)
        && freemap[..] == MapOf(disk[..]) && Shaped() && sb.nfreemapBlocks == 1
    {
      hide Sound, Marked, AsFrame, SafeImage, Fills, KeepsFiles;
      SoundFacts(disk[..], tree, roles, spare);
      FillFrameSound(disk[..], tree, roles, spare, f, j, content, extra);
    }

    lemma StoredIs()
      requires Shaped() && Sound(disk[..], tree, roles, spare) && freemap[..] == MapOf(disk[..]) && sb.nfreemapBlocks == 1
      ensures Stored()
    {
      hide Sound;
    }
  }
}
