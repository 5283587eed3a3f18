/**
 The single-block writes that the operations are made of. Each lemma says
 that an image that holds a tree still holds one after the write.
 */
module Steps {
  import opened Bits
  import opened Layout

  /** A block is allocated but not yet linked: marked, without a role, cleared. */
  ghost predicate Fresh(d: seq<Block>, r: map<nat, Role>, b: nat) {
    && b < |d| && b !in r && Marked(MapOf(d), b) && d[b] == ZERO_BLOCK
  }

  /** Writing a block that has no role. */
  lemma WriteSpare(d: seq<Block>, t: Tree, r: map<nat, Role>, b: nat, x: Block)
    requires Consistent(d, t, r) && b < BLOCKS && b !in r
    ensures Consistent(d[b := x], t, r)
  {
  }

  /** Writing a freemap that still marks every block of the tree. */
  lemma WriteMap(d: seq<Block>, t: Tree, r: map<nat, Role>, w: seq<bv32>)
    requires Consistent(d, t, r)
    requires |w| == WORDS && forall b | b in r :: Marked(w, b)
    ensures Consistent(d[1 := FreemapBlk(w)], t, r)
  {
    hide Marked;
    var d' := d[1 := FreemapBlk(w)];
    forall b | b in r
      ensures Holds(d'[b], t, b, r[b])
    {
      assert Home(t, r, b);
    }
  }

  /** r2 gives every block of r the role it has in r. */
  ghost predicate Extends(r: map<nat, Role>, r2: map<nat, Role>) {
    forall b | b in r :: b in r2 && r2[b] == r[b]
  }

  lemma FileStays(f: nat, file: FileNode, r: map<nat, Role>, r2: map<nat, Role>)
    requires FilePlaced(f, file, r) && Extends(r, r2)
    ensures FilePlaced(f, file, r2)
  {
    forall j | 0 <= j < |file.chain|
      ensures FramePlaced(f, j, file.chain[j], r2)
    {
      assert FramePlaced(f, j, file.chain[j], r);
    }
  }

  lemma FilesStay(t: Tree, r: map<nat, Role>, r2: map<nat, Role>)
    requires Placed(t, r) && Extends(r, r2)
    ensures forall f | f in t.files :: FilePlaced(f, t.files[f], r2)
  {
    forall f | f in t.files
      ensures FilePlaced(f, t.files[f], r2)
    {
      FileStays(f, t.files[f], r, r2);
    }
  }

  // ---- directories ----

  function AppendedDirs(t: Tree, b: nat): Tree {
    t.(dirs := t.dirs + [DirNode(b, "", Zeros(NINODES))])
  }

  /** The block that holds the link to a new last directory, with that link set. */
  function LinkToDir(t: Tree, b: nat): (nat, Block) {
    if t.dirs == [] then
      (0, SuperBlk(Superblock(SFS_MAGIC, 1024, 1, b)))
    else
      var last := t.dirs[|t.dirs| - 1];
      (last.bid, DirBlk(b, last.name, last.slots))
  }

  lemma AppendedPlaced(t: Tree, r: map<nat, Role>, b: nat)
    requires Placed(t, r) && b !in r
    ensures Placed(AppendedDirs(t, b), r[b := RDir(|t.dirs|)])
  {
    var t', r' := AppendedDirs(t, b), r[b := RDir(|t.dirs|)];
    FilesStay(t, r, r');
    forall i | 0 <= i < |t'.dirs|
      ensures DirPlaced(t'.dirs[i], i, t', r')
    {
      if i < |t.dirs| {
        assert DirPlaced(t.dirs[i], i, t, r);
      }
    }
  }

  lemma AppendedBlock(d: seq<Block>, t: Tree, r: map<nat, Role>, b: nat, c: nat)
    requires b !in r && c in r && c < |d| && Home(t, r, c) && Holds(d[c], t, c, r[c])
    ensures Home(AppendedDirs(t, b), r[b := RDir(|t.dirs|)], c)
    ensures c != LinkToDir(t, b).0 ==> Holds(d[c], AppendedDirs(t, b), c, r[c])
  {
  }

  lemma AppendedNew(d: seq<Block>, t: Tree, r: map<nat, Role>, b: nat)
    requires b !in r && b < |d| && d[b] == ZERO_BLOCK
    requires 0 in r && r[0] == RSuper
    requires t.dirs != [] ==> DirPlaced(t.dirs[|t.dirs| - 1], |t.dirs| - 1, t, r)
    ensures Home(AppendedDirs(t, b), r[b := RDir(|t.dirs|)], b)
    ensures Holds(d[b], AppendedDirs(t, b), b, RDir(|t.dirs|))
    ensures LinkToDir(t, b).0 in r
    ensures Holds(LinkToDir(t, b).1, AppendedDirs(t, b), LinkToDir(t, b).0, r[LinkToDir(t, b).0])
  {
  }

  /** Linking a fresh block after the last directory. */
  lemma AppendDir(d: seq<Block>, t: Tree, r: map<nat, Role>, b: nat)
    requires Consistent(d, t, r) && Fresh(d, r, b)
    ensures LinkToDir(t, b).0 < BLOCKS && LinkToDir(t, b).0 in r
    ensures Consistent(d[LinkToDir(t, b).0 := LinkToDir(t, b).1], AppendedDirs(t, b), r[b := RDir(|t.dirs|)])
  {
    hide Marked, Placed, Home, Holds;
    var n := |t.dirs|;
    PlacedDir(t, r, n - 1);
    var (at, blk) := LinkToDir(t, b);
    var t', r' := AppendedDirs(t, b), r[b := RDir(n)];
    AppendedPlaced(t, r, b);
    AppendedNew(d, t, r, b);
    var d' := d[at := blk];
    assert MapOf(d') == MapOf(d);
    forall c | c in r'
      ensures c < BLOCKS && Home(t', r', c) && Holds(d'[c], t', c, r'[c])
    {
      if c != b {
        AppendedBlock(d, t, r, b, c);
      }
    }
  }

  lemma PlacedDir(t: Tree, r: map<nat, Role>, i: int)
    requires Placed(t, r)
    ensures 0 in r && 1 in r && r[0] == RSuper && r[1] == RFreemap
    ensures 0 <= i < |t.dirs| ==> DirPlaced(t.dirs[i], i, t, r)
  {
  }

  /** A directory block with its link kept and its name and slots replaced. */
  function DirImage(t: Tree, i: nat, name: string, slots: seq<nat>): Block {
    DirBlk(DirAt(t, i + 1), name, slots)
  }

  function NamedDir(t: Tree, i: nat, name: string): Tree
    requires i < |t.dirs|
  {
    t.(dirs := t.dirs[i := t.dirs[i].(name := name)])
  }

  lemma NamedPlaced(t: Tree, r: map<nat, Role>, i: nat, name: string)
    requires Placed(t, r) && i < |t.dirs|
    ensures Placed(NamedDir(t, i, name), r)
  {
    var t' := NamedDir(t, i, name);
    forall k | 0 <= k < |t'.dirs|
      ensures DirPlaced(t'.dirs[k], k, t', r)
    {
      assert DirPlaced(t.dirs[k], k, t, r);
    }
  }

  lemma NamedBlock(d: seq<Block>, t: Tree, r: map<nat, Role>, i: nat, name: string, c: nat)
    requires i < |t.dirs| && c in r && c < |d| && Home(t, r, c) && Holds(d[c], t, c, r[c])
    requires t.dirs[i].bid in r && r[t.dirs[i].bid] == RDir(i)
    ensures Home(NamedDir(t, i, name), r, c)
    ensures c != t.dirs[i].bid ==> Holds(d[c], NamedDir(t, i, name), c, r[c])
    ensures Holds(DirImage(t, i, name, t.dirs[i].slots), NamedDir(t, i, name), t.dirs[i].bid, RDir(i))
  {
  }

  lemma NameDir(d: seq<Block>, t: Tree, r: map<nat, Role>, i: nat, name: string)
    requires Consistent(d, t, r) && i < |t.dirs|
    ensures t.dirs[i].bid in r && t.dirs[i].bid < BLOCKS
    ensures Consistent(d[t.dirs[i].bid := DirImage(t, i, name, t.dirs[i].slots)], NamedDir(t, i, name), r)
  {
    hide Marked, Placed, Home, Holds;
    PlacedDir(t, r, i);
    var t' := NamedDir(t, i, name);
    NamedPlaced(t, r, i, name);
    var d' := d[t.dirs[i].bid := DirImage(t, i, name, t.dirs[i].slots)];
    assert MapOf(d') == MapOf(d);
    forall c | c in r
      ensures c < BLOCKS && Home(t', r, c) && Holds(d'[c], t', c, r[c])
    {
      NamedBlock(d, t, r, i, name, c);
    }
  }

  // ---- inodes ----

  function AddedFile(t: Tree, i: nat, s: nat, b: nat): Tree
    requires i < |t.dirs| && s < |t.dirs[i].slots|
  {
    Tree(t.dirs[i := t.dirs[i].(slots := t.dirs[i].slots[s := b])], t.files[b := FileNode("", 0, [])])
  }

  lemma AddedPlaced(t: Tree, r: map<nat, Role>, i: nat, s: nat, b: nat)
    requires Placed(t, r) && b !in r
    requires i < |t.dirs| && s < |t.dirs[i].slots| && t.dirs[i].slots[s] == 0
    ensures Placed(AddedFile(t, i, s, b), r[b := RInode(t.dirs[i].bid, s)])
  {
    var t', r' := AddedFile(t, i, s, b), r[b := RInode(t.dirs[i].bid, s)];
    FilesStay(t, r, r');
    forall k | 0 <= k < |t'.dirs|
      ensures DirPlaced(t'.dirs[k], k, t', r')
    {
      assert DirPlaced(t.dirs[k], k, t, r);
    }
  }

  lemma AddedBlock(d: seq<Block>, t: Tree, r: map<nat, Role>, i: nat, s: nat, b: nat, c: nat)
    requires i < |t.dirs| && s < |t.dirs[i].slots| && t.dirs[i].slots[s] == 0
    requires b !in r && b !in t.files && 0 in r && r[0] == RSuper
    requires c in r && c < |d| && Home(t, r, c) && Holds(d[c], t, c, r[c])
    requires t.dirs[i].bid in r && r[t.dirs[i].bid] == RDir(i)
    ensures Home(AddedFile(t, i, s, b), r[b := RInode(t.dirs[i].bid, s)], c)
    ensures c != t.dirs[i].bid ==> Holds(d[c], AddedFile(t, i, s, b), c, r[c])
  {
    var t', r' := AddedFile(t, i, s, b), r[b := RInode(t.dirs[i].bid, s)];
    match r[c]
    case RInode(p, q) =>
      assert c != 0;
      assert r'[p] == r[p];
    case _ =>
  }

  lemma AddedNew(d: seq<Block>, t: Tree, r: map<nat, Role>, i: nat, s: nat, b: nat)
    requires i < |t.dirs| && s < |t.dirs[i].slots|
    requires t.dirs[i].bid in r && r[t.dirs[i].bid] == RDir(i)
    requires b !in r && b < |d| && d[b] == ZERO_BLOCK
    ensures Home(AddedFile(t, i, s, b), r[b := RInode(t.dirs[i].bid, s)], b)
    ensures Holds(d[b], AddedFile(t, i, s, b), b, RInode(t.dirs[i].bid, s))
    ensures Holds(DirImage(t, i, t.dirs[i].name, t.dirs[i].slots[s := b]), AddedFile(t, i, s, b), t.dirs[i].bid, RDir(i))
  {
  }

  /** Writing the block of a fresh inode into a free slot of directory i. */
  lemma AddFile(d: seq<Block>, t: Tree, r: map<nat, Role>, i: nat, s: nat, b: nat)
    requires Consistent(d, t, r) && Fresh(d, r, b)
    requires i < |t.dirs| && s < |t.dirs[i].slots| && t.dirs[i].slots[s] == 0
    ensures t.dirs[i].bid in r && t.dirs[i].bid < BLOCKS
    ensures Consistent(d[t.dirs[i].bid := DirImage(t, i, t.dirs[i].name, t.dirs[i].slots[s := b])],
                       AddedFile(t, i, s, b), r[b := RInode(t.dirs[i].bid, s)])
  {
    hide Marked, Placed, Home, Holds, FilePlaced;
    PlacedDir(t, r, i);
    if b in t.files {
      PlacedFile(t, r, b);
    }
    var t', r' := AddedFile(t, i, s, b), r[b := RInode(t.dirs[i].bid, s)];
    AddedPlaced(t, r, i, s, b);
    AddedNew(d, t, r, i, s, b);
    var at := t.dirs[i].bid;
    var d' := d[at := DirImage(t, i, t.dirs[i].name, t.dirs[i].slots[s := b])];
    assert MapOf(d') == MapOf(d);
    forall c | c in r'
      ensures c < BLOCKS && Home(t', r', c) && Holds(d'[c], t', c, r'[c])
    {
      if c != b {
        AddedBlock(d, t, r, i, s, b, c);
      }
    }
  }

  // ---- one file ----

  function WithFile(t: Tree, f: nat, file: FileNode): Tree {
    t.(files := t.files[f := file])
  }

  /** Changing one file of the tree; its new blocks get their roles in extra. */
  lemma FileChangePlaced(t: Tree, r: map<nat, Role>, f: nat, file: FileNode, extra: map<nat, Role>)
    requires Placed(t, r) && f in t.files
    requires r.Keys !! extra.Keys
    requires FilePlaced(f, file, r + extra)
    ensures Placed(WithFile(t, f, file), r + extra)
  {
    var t', r' := WithFile(t, f, file), r + extra;
    FilesStay(t, r, r');
    forall k | 0 <= k < |t'.dirs|
      ensures DirPlaced(t'.dirs[k], k, t', r')
    {
      assert DirPlaced(t.dirs[k], k, t, r);
    }
  }

  /** The role belongs to a frame or a content block of file f. */
  predicate OfFile(role: Role, f: nat) {
    match role
    case RFrame(g, _) => g == f
    case RData(g, _, _) => g == f
    case _ => false
  }

  /** Every frame and content block of file f is at home and holds what it should. */
  ghost predicate FileFits(d: seq<Block>, t: Tree, r: map<nat, Role>, f: nat) {
    forall b | b in r && OfFile(r[b], f) :: b < |d| && Home(t, r, b) && Holds(d[b], t, b, r[b])
  }

  lemma OtherBlock(d: seq<Block>, t: Tree, r: map<nat, Role>, f: nat, file: FileNode, extra: map<nat, Role>, c: nat)
    requires r.Keys !! extra.Keys
    requires c in r && c < |d| && !OfFile(r[c], f)
    requires Home(t, r, c) && Holds(d[c], t, c, r[c])
    ensures Home(WithFile(t, f, file), r + extra, c)
    ensures c != f ==> Holds(d[c], WithFile(t, f, file), c, r[c])
  {
  }

  /** A write to block w, the inode or a frame or a content block of f, that changes only f. */
  lemma FileChange(d: seq<Block>, t: Tree, r: map<nat, Role>, f: nat, file: FileNode, extra: map<nat, Role>,
                   w: nat, x: Block)
    requires Consistent(d, t, r) && f in t.files
    requires w < BLOCKS && w in r && (w == f || OfFile(r[w], f))
    requires r.Keys !! extra.Keys
    requires forall b | b in extra :: b < BLOCKS && OfFile(extra[b], f) && Marked(MapOf(d), b)
    requires FilePlaced(f, file, r + extra)
    requires FileFits(d[w := x], WithFile(t, f, file), r + extra, f)
    requires f < BLOCKS && AsInode(d[w := x][f]) == InodeBlk(InodeOf(file))
    ensures Consistent(d[w := x], WithFile(t, f, file), r + extra)
  {
    hide Placed, FilePlaced, FileFits, Home, Holds, Marked, AsInode, InodeOf;
    PlacedDir(t, r, -1);
    PlacedFile(t, r, f);
    FileChangePlaced(t, r, f, file, extra);
    var d' := d[w := x];
    assert w != 1;
    assert MapOf(d') == MapOf(d);
    FileChangeBlocks(d, t, r, f, file, extra, w, x);
  }

  lemma ChangedInode(x: Block, t: Tree, f: nat, file: FileNode, role: Role)
    requires AsInode(x) == InodeBlk(InodeOf(file)) && role.RInode?
    ensures Holds(x, WithFile(t, f, file), f, role)
  {
  }

  lemma FileChangeBlocks(d: seq<Block>, t: Tree, r: map<nat, Role>, f: nat, file: FileNode, extra: map<nat, Role>,
                         w: nat, x: Block)
    requires |d| == BLOCKS && forall b | b in r :: b < BLOCKS && Home(t, r, b) && Holds(d[b], t, b, r[b])
    requires f in t.files && f in r && r[f].RInode?
    requires w < BLOCKS && w in r && (w == f || OfFile(r[w], f))
    requires r.Keys !! extra.Keys
    requires forall b | b in extra :: b < BLOCKS && OfFile(extra[b], f)
    requires FileFits(d[w := x], WithFile(t, f, file), r + extra, f)
    requires AsInode(d[w := x][f]) == InodeBlk(InodeOf(file))
    ensures forall c | c in r + extra ::
              Home(WithFile(t, f, file), r + extra, c) && c < BLOCKS &&
              Holds(d[w := x][c], WithFile(t, f, file), c, (r + extra)[c])
  {
    hide Home, Holds, InodeOf, AsInode;
    var t', r', d' := WithFile(t, f, file), r + extra, d[w := x];
    ChangedInode(d'[f], t, f, file, r[f]);
    forall c | c in r'
      ensures c < BLOCKS && Home(t', r', c) && Holds(d'[c], t', c, r'[c])
    {
      if c in r && !OfFile(r[c], f) {
        OtherBlock(d, t, r, f, file, extra, c);
      } else {
        assert OfFile(r'[c], f);
      }
    }
  }

  lemma PlacedFile(t: Tree, r: map<nat, Role>, f: nat)
    requires Placed(t, r) && f in t.files
    ensures f in r && r[f].RInode?
    ensures FilePlaced(f, t.files[f], r)
  {
  }

  // ---- writes to the blocks of one file ----

  /** What a consistent image says of file f. */
  lemma FileFacts(d: seq<Block>, t: Tree, r: map<nat, Role>, f: nat)
    requires Consistent(d, t, r) && f in t.files
    ensures f in r && f < BLOCKS && r[f].RInode? && AsInode(d[f]) == InodeBlk(InodeOf(t.files[f]))
    ensures FilePlaced(f, t.files[f], r)
    ensures FileFits(d, t, r, f)
  {
    hide Placed, FilePlaced, Marked, AsInode, InodeOf, AsDir, AsFrame;
    PlacedFile(t, r, f);
    assert Holds(d[f], t, f, r[f]);
  }

  /** What the role of a block says of it. */
  lemma BlockFacts(d: seq<Block>, t: Tree, r: map<nat, Role>, b: nat)
    requires Consistent(d, t, r) && b in r
    ensures b < BLOCKS && b < |d| && Home(t, r, b) && Holds(d[b], t, b, r[b]) && Marked(MapOf(d), b)
  {
    hide Placed, Home, Holds, Marked;
  }

  lemma FrameFacts(d: seq<Block>, t: Tree, r: map<nat, Role>, f: nat, j: nat)
    requires Consistent(d, t, r) && f in t.files && j < |t.files[f].chain|
    ensures var bid := t.files[f].chain[j].bid;
      && bid in r && bid < BLOCKS && bid > 1 && bid != f && r[bid] == RFrame(f, j)
      && AsFrame(d[bid]) == FrameBlk(FrameAt(t.files[f], j + 1), t.files[f].chain[j].content)
      && FramePlaced(f, j, t.files[f].chain[j], r)
  {
    hide Consistent, AsFrame, Home, FileFits, AsInode;
    FileFacts(d, t, r, f);
    SystemBlocks(d, t, r);
    var bid := t.files[f].chain[j].bid;
    assert FramePlaced(f, j, t.files[f].chain[j], r);
    BlockFacts(d, t, r, bid);
  }

  lemma SystemBlocks(d: seq<Block>, t: Tree, r: map<nat, Role>)
    requires Consistent(d, t, r)
    ensures 0 in r && r[0] == RSuper && 1 in r && r[1] == RFreemap
  {
    hide Home, Holds, Marked;
  }

  lemma DataFacts(d: seq<Block>, t: Tree, r: map<nat, Role>, f: nat, j: nat, k: nat)
    requires Consistent(d, t, r) && f in t.files && j < |t.files[f].chain| && k < FRAME_COUNT
    ensures |t.files[f].chain[j].content| == FRAME_COUNT
    ensures var b := t.files[f].chain[j].content[k];
      b != 0 ==> b in r && b < BLOCKS && b > 1 && r[b] == RData(f, j, k) && d[b].DataBlk? && |d[b].bytes| == BLOCK_SIZE
  {
    hide Placed, Marked, AsFrame, Home;
    FrameFacts(d, t, r, f, j);
    PlacedDir(t, r, -1);
    var b := t.files[f].chain[j].content[k];
    if b != 0 {
      assert r[b] == RData(f, j, k);
      assert Holds(d[b], t, b, r[b]);
    }
  }

  /** Writing the inode of f with another name and size. */
  lemma SetHeader(d: seq<Block>, t: Tree, r: map<nat, Role>, f: nat, name: string, size: nat)
    requires Consistent(d, t, r) && f in t.files
    ensures f < BLOCKS
    ensures var file := t.files[f].(name := name, size := size);
      Consistent(d[f := InodeBlk(InodeOf(file))], WithFile(t, f, file), r)
  {
    hide Consistent, FilePlaced, AsFrame, AsDir;
    FileFacts(d, t, r, f);
    LengthFact(d, t, r);
    var file := t.files[f].(name := name, size := size);
    var x := InodeBlk(InodeOf(file));
    assert r + map[] == r;
    forall b | b in r && OfFile(r[b], f)
      ensures b < |d| && Home(WithFile(t, f, file), r, b) && Holds(d[f := x][b], WithFile(t, f, file), b, r[b])
    {
      assert Home(t, r, b) && Holds(d[b], t, b, r[b]);
    }
    assert FilePlaced(f, file, r) by { SameChain(f, t.files[f], file, r); }
    FileChange(d, t, r, f, file, map[], f, x);
  }

  lemma SameChain(f: nat, a: FileNode, b: FileNode, r: map<nat, Role>)
    requires FilePlaced(f, a, r) && a.chain == b.chain
    ensures FilePlaced(f, b, r)
  {
  }

  lemma LengthFact(d: seq<Block>, t: Tree, r: map<nat, Role>)
    requires Consistent(d, t, r)
    ensures |d| == BLOCKS
    ensures 0 in r && r[0] == RSuper && 1 in r && r[1] == RFreemap
    ensures d[0] == SuperBlk(SuperOf(t)) && d[1].FreemapBlk? && |d[1].words| == WORDS
    ensures forall b | b in r :: b < BLOCKS
  {
    hide Marked, DirPlaced, FilePlaced;
    assert Holds(d[0], t, 0, r[0]);
    assert Holds(d[1], t, 1, r[1]);
  }

  function WithFrame(file: FileNode, b: nat): FileNode {
    file.(chain := file.chain + [FrameNode(b, Zeros(FRAME_COUNT))])
  }

  lemma WithFramePlaced(f: nat, file: FileNode, r: map<nat, Role>, b: nat)
    requires FilePlaced(f, file, r) && b !in r
    ensures FilePlaced(f, WithFrame(file, b), r + map[b := RFrame(f, |file.chain|)])
  {
    var r' := r + map[b := RFrame(f, |file.chain|)];
    FileStays(f, file, r, r');
  }

  /** The block that links a new last frame of f, with that link set. */
  function LinkToFrame(t: Tree, f: nat, b: nat, name: string): (nat, Block)
    requires f in t.files
  {
    var file := t.files[f];
    if file.chain == [] then
      (f, InodeBlk(InodeRec(file.size, b, name)))
    else
      var last := file.chain[|file.chain| - 1];
      (last.bid, FrameBlk(b, last.content))
  }

  /** Linking a fresh frame to the inode (which also names the file) or to the last frame. */
  lemma LinkFrame(d: seq<Block>, t: Tree, r: map<nat, Role>, f: nat, b: nat, name: string)
    requires Consistent(d, t, r) && f in t.files && Fresh(d, r, b)
    requires t.files[f].chain != [] ==> name == t.files[f].name
    ensures LinkToFrame(t, f, b, name).0 in r && LinkToFrame(t, f, b, name).0 < BLOCKS
    ensures Consistent(d[LinkToFrame(t, f, b, name).0 := LinkToFrame(t, f, b, name).1],
                       WithFile(t, f, WithFrame(t.files[f], b).(name := name)), r[b := RFrame(f, |t.files[f].chain|)])
  {
    hide Consistent, FilePlaced, FileFits, Marked, Home, Holds, AsInode;
    FileFacts(d, t, r, f);
    LengthFact(d, t, r);
    var n := |t.files[f].chain|;
    var (at, x) := LinkToFrame(t, f, b, name);
    var file := WithFrame(t.files[f], b).(name := name);
    var extra := map[b := RFrame(f, n)];
    assert r + extra == r[b := RFrame(f, n)];
    WithFramePlaced(f, t.files[f], r, b);
    SameChain(f, WithFrame(t.files[f], b), file, r + extra);
    if n != 0 {
      FrameFacts(d, t, r, f, n - 1);
    }
    LinkFrameFits(d, t, r, f, b, name);
    LinkFrameInode(d, t, f, b, name);
    FileChange(d, t, r, f, file, extra, at, x);
  }

  lemma LinkFrameInode(d: seq<Block>, t: Tree, f: nat, b: nat, name: string)
    requires f in t.files && f < |d| && AsInode(d[f]) == InodeBlk(InodeOf(t.files[f]))
    requires LinkToFrame(t, f, b, name).0 < |d|
    requires t.files[f].chain != [] ==> name == t.files[f].name && LinkToFrame(t, f, b, name).0 != f
    ensures AsInode(d[LinkToFrame(t, f, b, name).0 := LinkToFrame(t, f, b, name).1][f])
         == InodeBlk(InodeOf(WithFrame(t.files[f], b).(name := name)))
  {
  }

  lemma LinkFrameFits(d: seq<Block>, t: Tree, r: map<nat, Role>, f: nat, b: nat, name: string)
    requires f in t.files && f in r && r[f].RInode? && FileFits(d, t, r, f) && FilePlaced(f, t.files[f], r)
    requires LinkToFrame(t, f, b, name).0 < |d| && b < |d| && b !in r && d[b] == ZERO_BLOCK
    ensures FileFits(d[LinkToFrame(t, f, b, name).0 := LinkToFrame(t, f, b, name).1],
                     WithFile(t, f, WithFrame(t.files[f], b).(name := name)), r + map[b := RFrame(f, |t.files[f].chain|)], f)
  {
    var n := |t.files[f].chain|;
    var (at, x) := LinkToFrame(t, f, b, name);
    var t' := WithFile(t, f, WithFrame(t.files[f], b).(name := name));
    var r' := r + map[b := RFrame(f, n)];
    var d' := d[at := x];
    if n != 0 {
      assert FramePlaced(f, n - 1, t.files[f].chain[n - 1], r);
    }
    forall c | c in r' && OfFile(r'[c], f)
      ensures Home(t', r', c) && Holds(d'[c], t', c, r'[c])
    {
      if c != b {
        assert Home(t, r, c) && Holds(d[c], t, c, r[c]);
      }
    }
  }

  function WithContent(file: FileNode, j: nat, content: seq<nat>): FileNode
    requires j < |file.chain|
  {
    file.(chain := file.chain[j := file.chain[j].(content := content)])
  }

  /** content fills unset entries of frame j with the blocks of extra. */
  ghost predicate Fills(before: seq<nat>, content: seq<nat>, extra: map<nat, Role>, f: nat, j: nat) {
    && |before| == |content| == FRAME_COUNT
    && (forall k | 0 <= k < FRAME_COUNT :: content[k] == before[k] || (before[k] == 0 && content[k] in extra))
    && (forall k | 0 <= k < FRAME_COUNT && content[k] in extra :: extra[content[k]] == RData(f, j, k))
    && (forall b | b in extra :: extra[b].RData? && extra[b].file == f && extra[b].frame == j
                                 && extra[b].pos < FRAME_COUNT && content[extra[b].pos] == b)
  }

  /** Writing frame j of f with some unset entries filled by fresh blocks. */
  lemma FillFrame(d: seq<Block>, t: Tree, r: map<nat, Role>, f: nat, j: nat, content: seq<nat>, extra: map<nat, Role>)
    requires Consistent(d, t, r) && f in t.files && j < |t.files[f].chain|
    requires Fills(t.files[f].chain[j].content, content, extra, f, j)
    requires forall b | b in extra :: Fresh(d, r, b)
    ensures t.files[f].chain[j].bid < BLOCKS && t.files[f].chain[j].bid in r
    ensures Consistent(d[t.files[f].chain[j].bid := FrameBlk(FrameAt(t.files[f], j + 1), content)],
                       WithFile(t, f, WithContent(t.files[f], j, content)), r + extra)
  {
    hide Consistent, FilePlaced, FileFits, Marked, Home, Holds, AsInode, InodeOf;
    FileFacts(d, t, r, f);
    LengthFact(d, t, r);
    FrameFacts(d, t, r, f, j);
    var file := WithContent(t.files[f], j, content);
    var x := FrameBlk(FrameAt(t.files[f], j + 1), content);
    assert InodeOf(file) == InodeOf(t.files[f]) by { ContentInode(t.files[f], j, content); }
    FillPlaced(f, t.files[f], r, j, content, extra);
    FillFits(d, t, r, f, j, content, extra);
    FileChange(d, t, r, f, file, extra, t.files[f].chain[j].bid, x);
  }

  lemma ContentInode(file: FileNode, j: nat, content: seq<nat>)
    requires j < |file.chain|
    ensures InodeOf(WithContent(file, j, content)) == InodeOf(file)
  {
  }

  lemma FillPlaced(f: nat, file: FileNode, r: map<nat, Role>, j: nat, content: seq<nat>, extra: map<nat, Role>)
    requires FilePlaced(f, file, r) && j < |file.chain| && r.Keys !! extra.Keys
    requires Fills(file.chain[j].content, content, extra, f, j)
    ensures FilePlaced(f, WithContent(file, j, content), r + extra)
  {
    FileStays(f, file, r, r + extra);
    assert FramePlaced(f, j, file.chain[j], r + extra);
  }

  lemma FillFits(d: seq<Block>, t: Tree, r: map<nat, Role>, f: nat, j: nat, content: seq<nat>, extra: map<nat, Role>)
    requires f in t.files && j < |t.files[f].chain| && FileFits(d, t, r, f)
    requires 0 in r && r[0] == RSuper
    requires FilePlaced(f, t.files[f], r) && t.files[f].chain[j].bid < |d|
    requires Fills(t.files[f].chain[j].content, content, extra, f, j)
    requires forall b | b in extra :: b < |d| && b !in r && d[b] == ZERO_BLOCK
    ensures FileFits(d[t.files[f].chain[j].bid := FrameBlk(FrameAt(t.files[f], j + 1), content)],
                     WithFile(t, f, WithContent(t.files[f], j, content)), r + extra, f)
  {
    hide Home, Holds, Fills, FilePlaced;
    var at := t.files[f].chain[j].bid;
    var d' := d[at := FrameBlk(FrameAt(t.files[f], j + 1), content)];
    var t' := WithFile(t, f, WithContent(t.files[f], j, content));
    var r' := r + extra;
    assert FramePlaced(f, j, t.files[f].chain[j], r) by { FrameOf(f, t.files[f], r, j); }
    forall c | c in r' && OfFile(r'[c], f)
      ensures c < |d| && Home(t', r', c) && Holds(d'[c], t', c, r'[c])
    {
      if c in extra {
        FilledNew(t, r, f, j, content, extra, c);
      } else {
        assert Home(t, r, c) && Holds(d[c], t, c, r[c]);
        FilledOld(d, t, r, f, j, content, extra, c);
      }
    }
  }

  lemma FrameOf(f: nat, file: FileNode, r: map<nat, Role>, j: nat)
    requires FilePlaced(f, file, r) && j < |file.chain|
    ensures FramePlaced(f, j, file.chain[j], r)
  {
  }

  lemma FilledNew(t: Tree, r: map<nat, Role>, f: nat, j: nat, content: seq<nat>, extra: map<nat, Role>, c: nat)
    requires f in t.files && j < |t.files[f].chain| && c in extra
    requires Fills(t.files[f].chain[j].content, content, extra, f, j)
    ensures Home(WithFile(t, f, WithContent(t.files[f], j, content)), r + extra, c)
    ensures Holds(ZERO_BLOCK, WithFile(t, f, WithContent(t.files[f], j, content)), c, extra[c])
  {
  }

  lemma FilledOld(d: seq<Block>, t: Tree, r: map<nat, Role>, f: nat, j: nat, content: seq<nat>, extra: map<nat, Role>, c: nat)
    requires f in t.files && j < |t.files[f].chain|
    requires Fills(t.files[f].chain[j].content, content, extra, f, j)
    requires c in r && c !in extra && c < |d| && OfFile(r[c], f) && Home(t, r, c) && Holds(d[c], t, c, r[c])
    requires FramePlaced(f, j, t.files[f].chain[j], r)
    requires r[c].RData? ==> c != 0
    ensures var at := t.files[f].chain[j].bid; var t' := WithFile(t, f, WithContent(t.files[f], j, content));
      && Home(t', r + extra, c)
      && Holds(if c == at then FrameBlk(FrameAt(t.files[f], j + 1), content) else d[c], t', c, r[c])
  {
  }

  /** Writing a content block. */
  lemma WriteData(d: seq<Block>, t: Tree, r: map<nat, Role>, b: nat, bytes: seq<byte>)
    requires Consistent(d, t, r) && b in r && r[b].RData? && |bytes| == BLOCK_SIZE
    ensures b < BLOCKS && Consistent(d[b := DataBlk(bytes)], t, r)
  {
    hide Placed, Home, Marked, AsDir, AsFrame, AsInode;
    PlacedDir(t, r, -1);
    assert MapOf(d[b := DataBlk(bytes)]) == MapOf(d);
  }
}
