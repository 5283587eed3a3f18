/** The block store of a datanode, kept as files of a Simple File System. */
module BlockStore {
  import opened AbstractFs
  import opened Bits
  import opened ByteFile
  import opened Chains
  import opened Common
  import opened Contents
  import opened Effects
  import opened FileSystem
  import opened Layout
  import opened Lookup
  import opened Paths
  import opened Session
  import opened Steps
  import opened FsStore = Store

  const ROOT_DIR: string := "/"

  function Digit(n: nat): char
    requires n < 10
  {
    ['0', '1', '2', '3', '4', '5', '6', '7', '8', '9'][n]
  }

  /** A number as printf writes it with %d. */
  function Decimal(n: nat): string {
    if n < 10 then [Digit(n)] else Decimal(n / 10) + [Digit(n % 10)]
  }

  const INFIX: string := "_blk_"

  /** The name of the file that holds block id of a file. */
  function BlockName(file: string, id: nat): string {
    file + INFIX + Decimal(id)
  }

  predicate IsDigit(c: char) {
    '0' <= c <= '9'
  }

  lemma {:induction false} DecimalDigits(n: nat)
    ensures |Decimal(n)| >= 1 && forall i | 0 <= i < |Decimal(n)| :: IsDigit(Decimal(n)[i])
  {
    if n >= 10 {
      DecimalDigits(n / 10);
    }
  }

  lemma DigitInjective(m: nat, n: nat)
    requires m < 10 && n < 10 && Digit(m) == Digit(n)
    ensures m == n
  {
  }

  lemma {:induction false} DecimalInjective(m: nat, n: nat)
    requires Decimal(m) == Decimal(n)
    ensures m == n
  {
    DecimalLast(m);
    DecimalLast(n);
    DigitInjective(m % 10, n % 10);
    if m >= 10 && n >= 10 {
      DecimalInjective(m / 10, n / 10);
    } else {
      DecimalLength(m);
      DecimalLength(n);
    }
  }

  lemma DecimalLength(n: nat)
    ensures |Decimal(n)| == 1 <==> n < 10
  {
    if n >= 10 {
      DecimalDigits(n / 10);
    }
  }

  lemma DecimalLast(n: nat)
    ensures |Decimal(n)| >= 1 && Decimal(n)[|Decimal(n)| - 1] == Digit(n % 10)
    ensures n >= 10 ==> Decimal(n)[..|Decimal(n)| - 1] == Decimal(n / 10)
  {
    DecimalDigits(n);
  }

  /** The name of a block determines the file and the number of the block. */
  lemma BlockNameInjective(file: string, id: nat, file2: string, id2: nat)
    requires BlockName(file, id) == BlockName(file2, id2)
    ensures file == file2 && id == id2
  {
    hide Decimal;
    NotShorter(file, id, file2, id2);
    NotShorter(file2, id2, file, id);
    var s, d, d2 := BlockName(file, id), Decimal(id), Decimal(id2);
    assert d == s[|s| - |d|..] == d2;
    DecimalInjective(id, id2);
    assert file == s[..|s| - |d| - 5] == file2;
  }

  /** The digits at the end of a name end at its last underscore. */
  lemma NotShorter(file: string, id: nat, file2: string, id2: nat)
    requires BlockName(file, id) == BlockName(file2, id2)
    ensures |Decimal(id)| >= |Decimal(id2)|
  {
    hide Decimal;
    var s, d, d2 := BlockName(file, id), Decimal(id), Decimal(id2);
    DecimalDigits(id2);
    assert s[|s| - |d| - 1] == '_';
    forall j | |s| - |d2| <= j < |s|
      ensures IsDigit(s[j])
    {
      assert s[j] == d2[j - (|s| - |d2|)];
    }
  }

  /** The number that decimal digits stand for. */
  function Value(s: string): nat
    requires forall i | 0 <= i < |s| :: IsDigit(s[i])
  {
    if s == [] then 0
    else
      assert IsDigit(s[|s| - 1]);
      Value(s[..|s| - 1]) * 10 + (s[|s| - 1] as int - '0' as int)
  }

  lemma {:induction false} DecimalValue(n: nat)
    ensures forall i | 0 <= i < |Decimal(n)| :: IsDigit(Decimal(n)[i])
    ensures |Decimal(n)| >= 1 && Value(Decimal(n)) == n && (n != 0 ==> Decimal(n)[0] != '0')
  {
    DecimalDigits(n);
    DecimalLast(n);
    DigitValue(n % 10);
    var front := Decimal(n)[..|Decimal(n)| - 1];
    if n >= 10 {
      DecimalValue(n / 10);
      assert front == Decimal(n / 10);
    } else {
      assert front == [];
    }
  }

  lemma DigitValue(n: nat)
    requires n < 10
    ensures IsDigit(Digit(n)) && Digit(n) as int - '0' as int == n
  {
  }

  /** The name of a block's file: that of its file, _blk_, and the number of the block in decimal digits without leading zeros. */
  lemma BlockNameFormat(file: string, id: nat)
    ensures var s := BlockName(file, id); var tail := |file| + 5;
      && |s| > tail && s[..|file|] == file && s[|file|..tail] == "_blk_"
      && (forall i | tail <= i < |s| :: IsDigit(s[i])) && Value(s[tail..]) == id && (id != 0 ==> s[tail] != '0')
    ensures BlockName("local_file", 0) == "local_file_blk_0" && BlockName("local_file", 27) == "local_file_blk_27"
  {
    hide Decimal;
    DecimalValue(id);
    var s, tail := BlockName(file, id), |file| + 5;
    assert s[tail..] == Decimal(id);
    forall i | tail <= i < |s|
      ensures IsDigit(s[i])
    {
      assert s[i] == s[tail..][i - tail];
    }
    Decimals();
  }

  lemma Decimals()
    ensures Decimal(0) == "0" && Decimal(27) == "27"
  {
  }

  function KeyPath(key: Key): Path {
    (ROOT_DIR, BlockName(key.0, key.1))
  }

  /** A file of a block: no longer than a block, in one frame, and none but its first three entries set. */
  ghost predicate CompactFile(file: FileNode) {
    && file.size <= DFS_BLOCK_SIZE && |file.chain| == 1 && |file.chain[0].content| == FRAME_COUNT
    && forall k | 3 <= k < FRAME_COUNT :: file.chain[0].content[k] == 0
  }

  ghost predicate Compact(t: Tree) {
    |t.dirs| <= 1 && forall f | f in t.files :: CompactFile(t.files[f])
  }

  class Store {
    const shell: Shell
    ghost var blocks: map<Key, seq<byte>>

    /**
     The files are the given blocks under their names; a key that was only asked
     for has an empty one. They all are in one directory, which is there once a
     block was written.
     */
    ghost predicate Holds(held: map<Key, seq<byte>>)
      reads this, shell, shell.fs, shell.fs.disk, shell.fs.freemap, shell.fs.fdtable
    {
      && shell.Valid() && shell.fs.spare == {}
      && InRoot(shell.abs, held)
      && ShowsBlocks(held, shell.abs.files)
      && (forall key | key in held :: |held[key]| == 0 || |held[key]| == DFS_BLOCK_SIZE)
      && Compact(shell.fs.tree)
    }

    /** No descriptor is in use between two calls. */
    ghost predicate Valid()
      reads this, shell, shell.fs, shell.fs.disk, shell.fs.freemap, shell.fs.fdtable
    {
      Holds(blocks) && shell.abs.fds == map[] && shell.abs.stale == {}
    }

    /** A store in a new, mounted file system. */
    constructor ()
      ensures Valid() && blocks == map[]
      ensures fresh(shell) && fresh(shell.fs) && fresh(shell.fs.disk) && fresh(shell.fs.freemap) && fresh(shell.fs.fdtable)
    {
      hide Shell.Valid, Sfs.Shaped, ShowsBlocks;
      var made := new Shell();
      shell := made;
      blocks := map[];
      new;
      NoBlocks();
    }

    /** A key can be stored: it is there already, or the directory has a slot for it. */
    ghost predicate Fits(key: Key)
      reads this
    {
      key in blocks || |blocks| < NINODES
    }

    /** The file of a block is opened, and made if it is missing; there is room to write or read a block then. */
    method OpenBlock(path: string, ghost key: Key) returns (fd: int)
      requires Valid() && Fits(key) && shell.abs.dirs == [ROOT_DIR] && path == BlockName(key.0, key.1)
      modifies shell, shell.fs, shell.fs.disk, shell.fs.freemap, shell.fs.fdtable
      ensures fd == 0 && shell.abs.fds == map[0 := OpenFile((ROOT_DIR, path), 0)] && shell.abs.stale == {}
      ensures Holds(OpenedBlocks(blocks, key)) && shell.abs.dirs == [ROOT_DIR]
      ensures forall buf: seq<byte> | |buf| == DFS_BLOCK_SIZE :: Need(shell.Now(), shell.abs, WriteOp(fd, buf)) <= FreeOf(shell.Now())
      ensures Need(shell.Now(), shell.abs, ReadOp(fd, DFS_BLOCK_SIZE)) <= FreeOf(shell.Now())
    {
      hide Shell.Valid, BlockName, ShowsBlocks, Apply, Right, StepOk, FreeOf, Need, Compact, Sound, JustCreated;
      ghost var a, s := shell.abs, shell.Now();
      EnoughFree(shell, blocks);
      KeyShown(blocks, a.files, key);
      KeysCount(a, blocks);
      var reply := shell.Open(ROOT_DIR, path);
      FileOpened(s, a, path, reply, shell.Now());
      fd := reply.code;
      OpenedCompact(s.t, shell.fs.tree);
      HeldOpen(blocks, a.files, shell.abs.files, key);
      EnoughFree(shell, OpenedBlocks(blocks, key));
      BlockNeeds(shell, fd);
    }

    /** The directory is made if it is missing. */
    method MakeRoot()
      requires Valid()
      modifies shell, shell.fs, shell.fs.disk, shell.fs.freemap
      ensures Valid() && shell.abs.dirs == [ROOT_DIR] && shell.abs.files == old(shell.abs.files)
    {
      hide Shell.Valid, BlockName, ShowsBlocks, Apply, Right, StepOk, FreeOf, Need, Compact, Sound;
      ghost var a, s := shell.abs, shell.Now();
      EnoughFree(shell, blocks);
      var made := shell.Mkdir(ROOT_DIR);
      DirMade(s, a, made, shell.Now());
      NamesCount(shell);
      StillCompact(s.t, shell.fs.tree);
    }

    method CloseBlock(fd: int)
      requires shell.Valid() && shell.abs.fds.Keys == {fd} && shell.abs.stale == {} && 0 <= fd < MAX_OPENED_FILES
      modifies shell, shell.fs.fdtable
      ensures shell.Valid() && shell.abs == old(shell.abs).(fds := map[])
    {
      hide Shell.Valid, Apply, Right, StepOk;
      ghost var a, s := shell.abs, shell.Now();
      var closed := shell.Close(fd);
      FileClosed(s, a, fd, closed, shell.Now());
    }

    /** ext_write_block. */
    method WriteBlock(file: string, id: nat, buf: seq<byte>)
      requires Valid() && Fits((file, id)) && |buf| == DFS_BLOCK_SIZE
      modifies this, shell, shell.fs, shell.fs.disk, shell.fs.freemap, shell.fs.fdtable
      ensures Valid() && blocks == old(blocks)[(file, id) := buf]
    {
      hide Shell.Valid, BlockName, Overwrite, ShowsBlocks, Apply, Right, StepOk, FreeOf, Need, Compact, OneFileGrows, Sound;
      ghost var key := (file, id);
      var path := BlockName(file, id);
      MakeRoot();
      var fd := OpenBlock(path, key);
      ghost var a, s, held := shell.abs, shell.Now(), OpenedBlocks(blocks, key);
      KeyShown(held, a.files, key);
      var written := shell.Write(fd, buf);
      FileWritten(s, a, fd, buf, written, shell.Now());
      WrittenCompact(s.t, shell.fs.tree);
      CloseBlock(fd);
      WholeBlock(held[key], buf);
      ShowsBlockWrite(held, a.files, shell.abs.files, key, buf);
      OpenedThen(blocks, key, buf);
      blocks := blocks[key := buf];
    }

    /**
     ext_read_block. A block that was never written reads as no bytes, and
     asking for it leaves an empty file behind: sfs_open creates what it misses.
     The directory is not made here, so some block must have been written.
     */
    method ReadBlock(file: string, id: nat) returns (buf: seq<byte>)
      requires Valid() && blocks != map[] && Fits((file, id))
      modifies this, shell, shell.fs, shell.fs.disk, shell.fs.freemap, shell.fs.fdtable
      ensures Valid()
      ensures (file, id) in old(blocks) ==> buf == old(blocks)[(file, id)] && blocks == old(blocks)
      ensures (file, id) !in old(blocks) ==> buf == [] && blocks == old(blocks)[(file, id) := []]
    {
      hide Shell.Valid, BlockName, ShowsBlocks, Apply, Right, StepOk, FreeOf, Need, Compact, OneFileGrows, ReadAt, Sound;
      ghost var key := (file, id);
      var path := BlockName(file, id);
      var fd := OpenBlock(path, key);
      ghost var a, s, held := shell.abs, shell.Now(), OpenedBlocks(blocks, key);
      KeyShown(held, a.files, key);
      var got := shell.Read(fd, DFS_BLOCK_SIZE);
      FileRead(s, a, fd, DFS_BLOCK_SIZE, got, shell.Now());
      ReadCompact(s.t, shell.fs.tree);
      buf := got.bytes;
      CloseBlock(fd);
      blocks := held;
    }

    /** Any number of writes, about no more keys than fit. */
    method WriteBlocks(writes: seq<(Key, seq<byte>)>)
      requires Valid() && (forall i | 0 <= i < |writes| :: |writes[i].1| == DFS_BLOCK_SIZE)
      requires |blocks.Keys + KeysOf(writes)| <= NINODES
      modifies this, shell, shell.fs, shell.fs.disk, shell.fs.freemap, shell.fs.fdtable
      ensures Valid() && blocks == StoredAll(old(blocks), writes)
    {
      hide Valid, KeysOf;
      ghost var before := blocks;
      var i := 0;
      while i < |writes|
        invariant 0 <= i <= |writes| && Valid() && blocks == StoredAll(before, writes[..i])
      {
        StoredNext(before, writes, i);
        NextFits(before, writes, i);
        WriteBlock(writes[i].0.0, writes[i].0.1, writes[i].1);
        i := i + 1;
      }
      assert writes[..i] == writes;
    }

    /** A block is written, then any others, and then it is read: what was written comes back. */
    method WriteOthersRead(file: string, id: nat, buf: seq<byte>, others: seq<(Key, seq<byte>)>) returns (got: seq<byte>)
      requires Valid() && |buf| == DFS_BLOCK_SIZE
      requires forall i | 0 <= i < |others| :: others[i].0 != (file, id) && |others[i].1| == DFS_BLOCK_SIZE
      requires |blocks.Keys + {(file, id)} + KeysOf(others)| <= NINODES
      modifies this, shell, shell.fs, shell.fs.disk, shell.fs.freemap, shell.fs.fdtable
      ensures Valid() && got == buf
      ensures blocks == StoredAll(old(blocks)[(file, id) := buf], others)
    {
      hide Valid, KeysOf, StoredAll;
      ghost var key, before := (file, id), blocks;
      FitsIn(blocks, key, blocks.Keys + {key} + KeysOf(others));
      WriteBlock(file, id, buf);
      assert blocks.Keys == before.Keys + {key};
      ghost var held := blocks;
      WriteBlocks(others);
      StoredElsewhere(held, others, key);
      got := ReadBlock(file, id);
    }
  }

  /** The blocks after a series of writes. */
  function StoredAll(blocks: map<Key, seq<byte>>, writes: seq<(Key, seq<byte>)>): map<Key, seq<byte>> {
    if writes == [] then blocks
    else StoredAll(blocks, writes[..|writes| - 1])[writes[|writes| - 1].0 := writes[|writes| - 1].1]
  }

  lemma StoredNext(blocks: map<Key, seq<byte>>, writes: seq<(Key, seq<byte>)>, i: nat)
    requires i < |writes|
    ensures StoredAll(blocks, writes[..i + 1]) == StoredAll(blocks, writes[..i])[writes[i].0 := writes[i].1]
  {
    assert writes[..i + 1][..i] == writes[..i];
  }

  lemma {:induction false} StoredElsewhere(blocks: map<Key, seq<byte>>, writes: seq<(Key, seq<byte>)>, key: Key)
    requires key in blocks && forall i | 0 <= i < |writes| :: writes[i].0 != key
    ensures key in StoredAll(blocks, writes) && StoredAll(blocks, writes)[key] == blocks[key]
    decreases |writes|
  {
    if writes != [] {
      StoredElsewhere(blocks, writes[..|writes| - 1], key);
    }
  }

  lemma {:induction false} StoredKeys(blocks: map<Key, seq<byte>>, writes: seq<(Key, seq<byte>)>)
    ensures StoredAll(blocks, writes).Keys <= blocks.Keys + KeysOf(writes)
    decreases |writes|
  {
    hide KeysOf;
    if writes != [] {
      var n := |writes| - 1;
      StoredKeys(blocks, writes[..n]);
      KeysWithin(writes, n);
    }
  }

  lemma NextFits(blocks: map<Key, seq<byte>>, writes: seq<(Key, seq<byte>)>, i: nat)
    requires i < |writes| && |blocks.Keys + KeysOf(writes)| <= NINODES
    ensures writes[i].0 in StoredAll(blocks, writes[..i]) || |StoredAll(blocks, writes[..i])| < NINODES
  {
    hide KeysOf, StoredAll;
    StoredKeys(blocks, writes[..i]);
    KeysWithin(writes, i);
    FitsIn(StoredAll(blocks, writes[..i]), writes[i].0, blocks.Keys + KeysOf(writes));
  }

  /** The blocks after the file of a key was opened. */
  function OpenedBlocks(blocks: map<Key, seq<byte>>, key: Key): (held: map<Key, seq<byte>>)
    ensures key in held && held.Keys == blocks.Keys + {key}
  {
    if key in blocks then blocks else blocks[key := []]
  }

  lemma OpenedThen(blocks: map<Key, seq<byte>>, key: Key, buf: seq<byte>)
    ensures OpenedBlocks(blocks, key)[key := buf] == blocks[key := buf]
    ensures |blocks[key := buf]| == |OpenedBlocks(blocks, key)|
  {
    assert blocks[key := buf].Keys == OpenedBlocks(blocks, key).Keys;
  }

  function KeysOf(others: seq<(Key, seq<byte>)>): set<Key> {
    set i | 0 <= i < |others| :: others[i].0
  }

  lemma KeysWithin(others: seq<(Key, seq<byte>)>, i: nat)
    requires i < |others|
    ensures KeysOf(others[..i]) <= KeysOf(others) && others[i].0 in KeysOf(others)
  {
    forall key | key in KeysOf(others[..i])
      ensures key in KeysOf(others)
    {
      var j :| 0 <= j < i && others[..i][j].0 == key;
      assert others[j].0 == key;
    }
  }

  /** With all keys in a set of at most 97, another key of the set fits in. */
  lemma FitsIn(blocks: map<Key, seq<byte>>, key: Key, all: set<Key>)
    requires blocks.Keys <= all && key in all && |all| <= NINODES
    ensures key in blocks || |blocks| < NINODES
  {
    if key !in blocks {
      Subset(blocks.Keys + {key}, all);
    }
  }

  // ---- how much room a store of blocks takes ----

  /** The directory is there once there are blocks, and no other. */
  ghost predicate InRoot(a: Abs, blocks: map<Key, seq<byte>>) {
    && (a.dirs == [] || a.dirs == [ROOT_DIR])
    && (blocks != map[] ==> a.dirs == [ROOT_DIR])
    && |blocks| <= NINODES
  }

  /** There are as many files as blocks. */
  lemma KeysCount(a: Abs, blocks: map<Key, seq<byte>>)
    requires ShowsBlocks(blocks, a.files)
    ensures |FilesIn(a, ROOT_DIR)| == |blocks| == |a.files|
  {
    hide BlockName, ShowsBlocks;
    var paths := PathsOf(blocks.Keys);
    forall p | p in a.files
      ensures p in paths && p in FilesIn(a, ROOT_DIR)
    {
      AllAreBlocks(blocks, a.files, p);
    }
    forall p | p in paths
      ensures p in a.files
    {
      var key :| key in blocks && p == KeyPath(key);
      KeyShown(blocks, a.files, key);
    }
    assert paths == a.files.Keys == FilesIn(a, ROOT_DIR);
  }

  lemma {:induction false} PathsOf(keys: set<Key>) returns (paths: set<Path>)
    ensures |paths| == |keys| && forall p :: p in paths <==> exists key :: key in keys && p == KeyPath(key)
    decreases |keys|
  {
    hide BlockName;
    if keys == {} {
      paths := {};
    } else {
      var key :| key in keys;
      var before := PathsOf(keys - {key});
      if KeyPath(key) in before {
        var key2 :| key2 in keys - {key} && KeyPath(key) == KeyPath(key2);
        BlockNameInjective(key.0, key.1, key2.0, key2.1);
      }
      paths := before + {KeyPath(key)};
    }
  }

  /** The store leaves at least 4093 blocks free, less five for each of its blocks. */
  lemma EnoughFree(shell: Shell, blocks: map<Key, seq<byte>>)
    requires shell.Valid() && shell.fs.spare == {} && Compact(shell.fs.tree) && ShowsBlocks(blocks, shell.abs.files)
    ensures FreeOf(shell.Now()) >= 4093 - 5 * |blocks|
  {
    hide Sfs.Stored, Sfs.Mounted, ShowsBlocks, Named, Sized, FreeCount, Sound, Compact, ShowsFiles, ShowsFds, ShowsBusy;
    KeysCount(shell.abs, blocks);
    var d := NowSound(shell.fs);
    FreeIsRest(d, shell.fs.tree, shell.fs.roles, {});
    RolesCount(d, shell.fs.tree, shell.fs.roles);
    FilesCount(shell);
  }

  /** Each file has at most five blocks. */
  lemma RolesCount(d: seq<Block>, t: Tree, r: map<nat, Role>)
    requires Sound(d, t, r, {}) && Compact(t)
    ensures |r| <= 3 + 5 * |t.files|
  {
    hide Sound, CompactFile;
    var own := BlocksOfFiles(t, t.files.Keys);
    var system := if t.dirs == [] then {0, 1} else {0, 1, t.dirs[0].bid};
    forall b | b in r
      ensures b in own + system
    {
      RoleKnown(d, t, r, b, own);
    }
    assert |system| <= 3;
    Subset(r.Keys, own + system);
    assert |own + system| <= |own| + |system|;
  }

  lemma RoleKnown(d: seq<Block>, t: Tree, r: map<nat, Role>, b: nat, own: set<nat>)
    requires Sound(d, t, r, {}) && Compact(t) && b in r
    requires forall f | f in t.files :: FileBlocks(t.files[f], f) <= own
    ensures b in own || b == 0 || b == 1 || (t.dirs != [] && b == t.dirs[0].bid)
  {
    hide Consistent, ZeroTail, Holds, MapIs, CompactFile;
    BlockFacts(d, t, r, b);
    SystemBlocks(d, t, r);
    match r[b]
    case RFrame(f, j) => FrameOwned(t.files[f], f, b, j);
    case RData(f, j, k) => DataOwned(t.files[f], f, b, j, k);
    case RInode(_, _) => assert b in FileBlocks(t.files[b], b);
    case _ =>
  }

  /** The blocks that a compact file can have. */
  function FileBlocks(file: FileNode, f: nat): (s: set<nat>)
    ensures |s| <= 5 && f in s
  {
    if |file.chain| == 1 && |file.chain[0].content| == FRAME_COUNT
    then {f, file.chain[0].bid, file.chain[0].content[0], file.chain[0].content[1], file.chain[0].content[2]}
    else {f}
  }

  lemma FrameOwned(file: FileNode, f: nat, b: nat, j: nat)
    requires CompactFile(file) && j < |file.chain| && file.chain[j].bid == b
    ensures b in FileBlocks(file, f)
  {
  }

  lemma DataOwned(file: FileNode, f: nat, b: nat, j: nat, k: nat)
    requires CompactFile(file) && j < |file.chain| && k < |file.chain[j].content| && file.chain[j].content[k] == b
    ensures b in FileBlocks(file, f) || b == 0
  {
  }

  lemma {:induction false} BlocksOfFiles(t: Tree, files: set<nat>) returns (own: set<nat>)
    requires files <= t.files.Keys
    ensures |own| <= 5 * |files| && forall f | f in files :: FileBlocks(t.files[f], f) <= own
    decreases |files|
  {
    hide FileBlocks;
    if files == {} {
      own := {};
    } else {
      var f :| f in files;
      var before := BlocksOfFiles(t, files - {f});
      own := before + FileBlocks(t.files[f], f);
      forall g | g in files
        ensures FileBlocks(t.files[g], g) <= own
      {
        if g != f {
          assert g in files - {f};
        }
      }
    }
  }

  /** The tree has no more files than there are paths. */
  lemma FilesCount(shell: Shell)
    requires shell.Valid()
    ensures |shell.fs.tree.files| <= |shell.abs.files|
  {
    hide Sfs.Valid, ShowsFiles, ShowsFds, ShowsBusy;
    var paths := PathsOfFiles(shell, shell.fs.tree.files.Keys);
    Subset(paths, shell.abs.files.Keys);
  }

  lemma {:induction false} PathsOfFiles(shell: Shell, files: set<nat>) returns (paths: set<Path>)
    requires shell.Valid() && files <= shell.fs.tree.files.Keys
    ensures |paths| == |files| && paths <= shell.abs.files.Keys
    ensures forall p | p in paths :: FileOf(shell.fs.tree, p.0, p.1) in files
    decreases |files|
  {
    hide Shell.Valid, FileOf;
    if files == {} {
      paths := {};
    } else {
      var f :| f in files;
      var before := PathsOfFiles(shell, files - {f});
      var p := PathOfFile(shell, f);
      paths := before + {p};
    }
  }

  lemma PathOfFile(shell: Shell, f: nat) returns (p: Path)
    requires shell.Valid() && f in shell.fs.tree.files
    ensures p in shell.abs.files && FileOf(shell.fs.tree, p.0, p.1) == f
  {
    hide Sfs.Stored, FileOf, Named, Sized, ShowsFds, ShowsBusy;
    var t := shell.fs.tree;
    var i, s := shell.fs.RemovePlace(f);
    p := (t.dirs[i].name, t.files[f].name);
    assert IsAt(t, p.0, p.1, i, s);
    FoundAt(t, p.0, p.1, i, s);
    assert ShowsFile(shell.abs.files, t, shell.fs.Files(), p.0, p.1);
  }

  lemma NamesCount(shell: Shell)
    requires shell.Valid()
    ensures |shell.fs.tree.dirs| == |shell.abs.dirs|
  {
    hide Sfs.Valid, ShowsFiles, ShowsFds, ShowsBusy;
  }

  // ---- a compact tree stays compact ----

  lemma StillCompact(t: Tree, t2: Tree)
    requires Compact(t) && t2.files == t.files
    ensures |t2.dirs| <= 1 ==> Compact(t2)
  {
    hide CompactFile;
  }

  lemma OpenedCompact(t: Tree, t2: Tree)
    requires Compact(t) && |t2.dirs| == |t.dirs|
    requires forall f | f in t2.files :: (f in t.files && t2.files[f] == t.files[f]) || JustCreated(t2.files[f])
    ensures Compact(t2)
  {
  }

  lemma WrittenCompact(t: Tree, t2: Tree)
    requires Compact(t) && OneFileGrows(t, t2, 0, DFS_BLOCK_SIZE, DFS_BLOCK_SIZE)
    ensures Compact(t2)
  {
    hide FileGrows, CompactFile;
    forall f | f in t2.files
      ensures CompactFile(t2.files[f])
    {
      if t2.files[f] != t.files[f] {
        GrownCompact(t.files[f], t2.files[f], DFS_BLOCK_SIZE);
      }
    }
  }

  lemma ReadCompact(t: Tree, t2: Tree)
    requires Compact(t) && OneFileGrows(t, t2, 0, DFS_BLOCK_SIZE, 0)
    ensures Compact(t2)
  {
    hide FileGrows, CompactFile;
    forall f | f in t2.files
      ensures CompactFile(t2.files[f])
    {
      if t2.files[f] != t.files[f] {
        GrownCompact(t.files[f], t2.files[f], 0);
      }
    }
  }

  lemma GrownCompact(a: FileNode, b: FileNode, end: nat)
    requires CompactFile(a) && FileGrows(a, b, 0, DFS_BLOCK_SIZE, end) && end <= DFS_BLOCK_SIZE
    ensures CompactFile(b)
  {
    hide Entry;
    assert FrameCount(b.size) == 1;
    forall k | 3 <= k < FRAME_COUNT
      ensures b.chain[0].content[k] == 0
    {
      EntryOf(a, k);
      EntryOf(b, k);
      assert Entry(b, k) == Entry(a, k);
    }
  }

  /** What writing or reading a whole block takes. */
  lemma BlockNeeds(shell: Shell, fd: int)
    requires shell.Valid() && fd in shell.abs.fds && Compact(shell.fs.tree) && shell.abs.fds[fd].cur == 0
    ensures forall buf: seq<byte> | |buf| == DFS_BLOCK_SIZE :: Need(shell.Now(), shell.abs, WriteOp(fd, buf)) <= 3
    ensures Need(shell.Now(), shell.abs, ReadOp(fd, DFS_BLOCK_SIZE)) <= 3
  {
    hide Sfs.Valid, ShowsFiles, ShowsBusy, FileOf, CompactFile, Missing, FrameCount, FileAt;
    assert ShowsFd(shell.abs.fds[fd], shell.fs.tree, shell.fs.roles, shell.fs.fdtable[..][fd]);
    FdHasFile(shell, fd);
    FileAtIs(shell.fs.tree, shell.abs.fds[fd].path);
    var file := FileAt(shell.fs.tree, shell.abs.fds[fd].path);
    CompactNeeds(file);
  }

  lemma FdHasFile(shell: Shell, fd: int)
    requires shell.Valid() && fd in shell.abs.fds
    ensures FileOf(shell.fs.tree, shell.abs.fds[fd].path.0, shell.abs.fds[fd].path.1) in shell.fs.tree.files
  {
    hide Sfs.Valid, FileOf, ShowsBusy, ShowsFiles;
    OpenFds(shell.abs.fds, shell.fs.tree, shell.fs.roles, shell.live, shell.fs.fdtable[..]);
    LiveFacts(shell.fs, shell.abs, shell.live, fd);
  }

  lemma CompactNeeds(file: FileNode)
    requires CompactFile(file)
    ensures WriteNeeds(file, 0, DFS_BLOCK_SIZE) <= 3 && ReadNeeds(file, 0, DFS_BLOCK_SIZE) <= 3
  {
    hide Missing;
    assert FrameCount(DFS_BLOCK_SIZE) == 1;
    MissingAtMost(file, 0, 3);
    var n := ReadLength(file.size, 0, DFS_BLOCK_SIZE);
    MissingAtMost(file, 0, n / BLOCK_SIZE + 1);
  }

  lemma {:induction false} MissingAtMost(file: FileNode, from: nat, n: nat)
    ensures Missing(file, from, n) <= n
    decreases n
  {
    hide Entry;
    if n != 0 {
      MissingAtMost(file, from + 1, n - 1);
    }
  }

  // ---- the abstract file system, step by step ----

  lemma DirMade(s: Snapshot, a: Abs, reply: Reply, s2: Snapshot)
    requires Right(a, MkdirOp(ROOT_DIR), reply) && StepOk(s, a, MkdirOp(ROOT_DIR), reply, s2) && FreeOf(s) >= 1
    requires a.dirs == [] || a.dirs == [ROOT_DIR]
    ensures var b := Apply(a, MkdirOp(ROOT_DIR), reply); b.dirs == [ROOT_DIR] && b.files == a.files && b.fds == a.fds && b.stale == a.stale
  {
    hide FreeOf, Logged;
  }

  lemma FileOpened(s: Snapshot, a: Abs, name: string, reply: Reply, s2: Snapshot)
    requires var op := OpenOp(ROOT_DIR, name); Right(a, op, reply) && StepOk(s, a, op, reply, s2) && FreeOf(s) >= 3
    requires a.dirs == [ROOT_DIR] && a.fds == map[] && a.stale == {}
    requires (ROOT_DIR, name) in a.files || |FilesIn(a, ROOT_DIR)| < NINODES
    ensures reply == Done(0)
    ensures var b := Apply(a, OpenOp(ROOT_DIR, name), reply);
      && b.fds == map[0 := OpenFile((ROOT_DIR, name), 0)] && b.stale == {} && b.dirs == a.dirs
      && b.files == if (ROOT_DIR, name) in a.files then a.files else a.files[(ROOT_DIR, name) := []]
  {
    hide FreeOf, Logged, Paid;
    assert !Busy(a, 0);
    assert FirstIdle(a, 0) == 0;
  }

  lemma FileWritten(s: Snapshot, a: Abs, fd: int, bytes: seq<byte>, reply: Reply, s2: Snapshot)
    requires var op := WriteOp(fd, bytes); Right(a, op, reply) && StepOk(s, a, op, reply, s2) && FreeOf(s) >= Need(s, a, op)
    requires fd in a.fds && a.fds[fd].path in a.files
    ensures !reply.Refused?
    ensures var b := Apply(a, WriteOp(fd, bytes), reply); var o := a.fds[fd];
      && b.fds.Keys == a.fds.Keys && b.stale == a.stale && b.dirs == a.dirs
      && b.files == a.files[o.path := Overwrite(a.files[o.path], o.cur, bytes)]
  {
    hide FreeOf, Logged, Paid, Need;
  }

  lemma FileRead(s: Snapshot, a: Abs, fd: int, length: nat, reply: Reply, s2: Snapshot)
    requires var op := ReadOp(fd, length); Right(a, op, reply) && StepOk(s, a, op, reply, s2) && FreeOf(s) >= Need(s, a, op)
    requires fd in a.fds && a.fds[fd].path in a.files
    ensures reply == Got(ReadAt(a.files[a.fds[fd].path], a.fds[fd].cur, length))
    ensures var b := Apply(a, ReadOp(fd, length), reply);
      b.fds.Keys == a.fds.Keys && b.stale == a.stale && b.dirs == a.dirs && b.files == a.files
    ensures a.fds[fd].cur == 0 && |a.files[a.fds[fd].path]| <= length ==> reply == Got(a.files[a.fds[fd].path])
  {
    hide FreeOf, Logged, Paid, Need;
  }

  lemma FileClosed(s: Snapshot, a: Abs, fd: int, reply: Reply, s2: Snapshot)
    requires Right(a, CloseOp(fd), reply) && StepOk(s, a, CloseOp(fd), reply, s2)
    requires a.fds.Keys == {fd} && a.stale == {} && 0 <= fd < MAX_OPENED_FILES
    ensures Apply(a, CloseOp(fd), reply) == a.(fds := map[])
  {
    hide Logged, Paid, FreeCount;
    FreeCountPositive(MapOf(s.d));
    assert a.fds - {fd} == map[];
  }

  /** A whole block lies over an empty one or a whole one. */
  lemma WholeBlock(s: seq<byte>, buf: seq<byte>)
    requires |s| <= |buf|
    ensures Overwrite(s, 0, buf) == buf
  {
  }

  lemma KeyShown(blocks: map<Key, seq<byte>>, files: map<Path, seq<byte>>, key: Key)
    requires ShowsBlocks(blocks, files)
    ensures KeyPath(key) in files <==> key in blocks
    ensures key in blocks ==> files[KeyPath(key)] == blocks[key]
  {
    hide BlockName;
    assert ShowsBlock(blocks, files, key);
  }

  /** The files are the blocks, and no others. */
  ghost predicate ShowsBlocks(blocks: map<Key, seq<byte>>, files: map<Path, seq<byte>>) {
    && (forall key: Key :: ShowsBlock(blocks, files, key))
    && (forall p | p in files :: exists key: Key :: key in blocks && p == KeyPath(key))
  }

  lemma AllAreBlocks(blocks: map<Key, seq<byte>>, files: map<Path, seq<byte>>, p: Path)
    requires ShowsBlocks(blocks, files) && p in files
    ensures p.0 == ROOT_DIR && exists key: Key :: key in blocks && p == KeyPath(key)
  {
    hide BlockName;
  }

  /** Opening a block's file leaves the blocks, or adds an empty one. */
  lemma HeldOpen(blocks: map<Key, seq<byte>>, files: map<Path, seq<byte>>, files2: map<Path, seq<byte>>, key: Key)
    requires ShowsBlocks(blocks, files)
    requires files2 == if KeyPath(key) in files then files else files[KeyPath(key) := []]
    ensures ShowsBlocks(OpenedBlocks(blocks, key), files2)
    ensures |OpenedBlocks(blocks, key)| == |blocks| + if key in blocks then 0 else 1
  {
    hide BlockName, ShowsBlocks;
    KeyShown(blocks, files, key);
    if key !in blocks {
      ShowsBlockWrite(blocks, files, files2, key, []);
      assert OpenedBlocks(blocks, key).Keys == blocks.Keys + {key};
    }
  }

  lemma NoBlocks()
    ensures ShowsBlocks(map[], map[])
  {
    hide BlockName;
  }

  ghost predicate ShowsBlock(blocks: map<Key, seq<byte>>, files: map<Path, seq<byte>>, key: Key) {
    if key in blocks then KeyPath(key) in files && files[KeyPath(key)] == blocks[key] else KeyPath(key) !in files
  }

  lemma ShowsBlockWrite(blocks: map<Key, seq<byte>>, files: map<Path, seq<byte>>, files2: map<Path, seq<byte>>, key: Key, buf: seq<byte>)
    requires ShowsBlocks(blocks, files)
    requires files2 == files[KeyPath(key) := buf]
    ensures ShowsBlocks(blocks[key := buf], files2)
  {
    hide BlockName;
    var blocks2 := blocks[key := buf];
    forall k: Key
      ensures ShowsBlock(blocks2, files2, k)
    {
      assert ShowsBlock(blocks, files, k);
      if KeyPath(k) == KeyPath(key) {
        BlockNameInjective(k.0, k.1, key.0, key.1);
      }
    }
    forall p | p in files2
      ensures exists k: Key :: k in blocks2 && p == KeyPath(k)
    {
      if p != KeyPath(key) {
        var k: Key :| k in blocks && p == KeyPath(k);
        assert k in blocks2;
      } else {
        assert key in blocks2;
      }
    }
  }
}
