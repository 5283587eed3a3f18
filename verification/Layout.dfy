/**
 The blocks of a Simple File System image, and what it means that an image
 holds a given tree of directories and files.
 */
module Layout {
  import opened Bits

  const BLOCK_SIZE: nat := 512
  const FRAME_COUNT: nat := 127
  const NINODES: nat := 97
  const BLOCKS: nat := 4096   // one for each bit of the only freemap block
  const WORDS: nat := 128     // in the only freemap block
  const SFS_MAGIC: nat := 0xAABBCCDD

  newtype byte = x: int | 0 <= x < 256

  datatype Superblock = Superblock(magic: nat, nblocks: nat, nfreemapBlocks: nat, firstDir: nat)

  datatype InodeRec = InodeRec(size: nat, firstFrame: nat, fileName: string)

  /** A block, seen as the structure that was last written to it. */
  datatype Block =
    | SuperBlk(sb: Superblock)
    | FreemapBlk(words: seq<bv32>)
    | DirBlk(nextDir: nat, dirName: string, inodes: seq<nat>)
    | InodeBlk(inode: InodeRec)
    | FrameBlk(next: nat, content: seq<nat>)
    | DataBlk(bytes: seq<byte>)

  function Zeros(n: nat): (s: seq<nat>)
    ensures |s| == n && forall i | 0 <= i < n :: s[i] == 0
  {
    seq(n, _ => 0)
  }

  function ZeroBytes(n: nat): (s: seq<byte>)
    ensures |s| == n && forall i | 0 <= i < n :: s[i] == 0
  {
    seq(n, _ => 0)
  }

  const ZERO_BLOCK: Block := DataBlk(ZeroBytes(BLOCK_SIZE))

  // A block that the allocator has just cleared, read as another structure.

  function AsDir(b: Block): Block {
    if b == ZERO_BLOCK then DirBlk(0, "", Zeros(NINODES)) else b
  }

  function AsInode(b: Block): Block {
    if b == ZERO_BLOCK then InodeBlk(InodeRec(0, 0, "")) else b
  }

  function AsFrame(b: Block): Block {
    if b == ZERO_BLOCK then FrameBlk(0, Zeros(FRAME_COUNT)) else b
  }

  // ---- the tree that an image holds ----

  datatype DirNode = DirNode(bid: nat, name: string, slots: seq<nat>)

  datatype FrameNode = FrameNode(bid: nat, content: seq<nat>)

  datatype FileNode = FileNode(name: string, size: nat, chain: seq<FrameNode>)

  /** Directories in list order, and the files by the block of their inode. */
  datatype Tree = Tree(dirs: seq<DirNode>, files: map<nat, FileNode>)

  /** What a block is for: its place in the tree. */
  datatype Role =
    | RSuper
    | RFreemap
    | RDir(idx: nat)
    | RInode(dir: nat, slot: nat)
    | RFrame(file: nat, frame: nat)
    | RData(file: nat, frame: nat, pos: nat)

  function DirAt(t: Tree, i: nat): nat {
    if i < |t.dirs| then t.dirs[i].bid else 0
  }

  function FrameAt(f: FileNode, j: nat): nat {
    if j < |f.chain| then f.chain[j].bid else 0
  }

  function SuperOf(t: Tree): Superblock {
    Superblock(SFS_MAGIC, 1024, 1, DirAt(t, 0))
  }

  function InodeOf(f: FileNode): InodeRec {
    InodeRec(f.size, FrameAt(f, 0), f.name)
  }

  /** Every part of the tree has a block, and no block has two places. */
  ghost predicate Placed(t: Tree, r: map<nat, Role>) {
    && 0 in r && r[0] == RSuper && 1 in r && r[1] == RFreemap
    && (forall i | 0 <= i < |t.dirs| :: DirPlaced(t.dirs[i], i, t, r))
    && (forall f | f in t.files :: FilePlaced(f, t.files[f], r))
  }

  ghost predicate DirPlaced(d: DirNode, i: nat, t: Tree, r: map<nat, Role>) {
    && d.bid in r && r[d.bid] == RDir(i)
    && |d.slots| == NINODES
    && forall s | 0 <= s < NINODES && d.slots[s] != 0 ::
         d.slots[s] in t.files && d.slots[s] in r && r[d.slots[s]] == RInode(d.bid, s)
  }

  ghost predicate FilePlaced(f: nat, file: FileNode, r: map<nat, Role>) {
    && f in r && r[f].RInode?
    && forall j | 0 <= j < |file.chain| :: FramePlaced(f, j, file.chain[j], r)
  }

  ghost predicate FramePlaced(f: nat, j: nat, frame: FrameNode, r: map<nat, Role>) {
    && frame.bid in r && r[frame.bid] == RFrame(f, j)
    && |frame.content| == FRAME_COUNT
    && forall k | 0 <= k < FRAME_COUNT && frame.content[k] != 0 ::
         frame.content[k] in r && r[frame.content[k]] == RData(f, j, k)
  }

  /** Block b is where its role says. */
  ghost predicate Home(t: Tree, r: map<nat, Role>, b: nat)
    requires b in r
  {
    match r[b]
    case RSuper => b == 0
    case RFreemap => b == 1
    case RDir(i) => i < |t.dirs| && t.dirs[i].bid == b
    case RInode(d, s) =>
      && b in t.files
      && d in r && r[d].RDir? && r[d].idx < |t.dirs|
      && s < |t.dirs[r[d].idx].slots| && t.dirs[r[d].idx].slots[s] == b
    case RFrame(f, j) => f in t.files && j < |t.files[f].chain| && t.files[f].chain[j].bid == b
    case RData(f, j, k) =>
      && f in t.files && j < |t.files[f].chain|
      && k < |t.files[f].chain[j].content| && t.files[f].chain[j].content[k] == b
  }

  /** What the block holds is what its place in the tree calls for. */
  ghost predicate Holds(blk: Block, t: Tree, b: nat, role: Role) {
    match role
    case RSuper => blk == SuperBlk(SuperOf(t))
    case RFreemap => blk.FreemapBlk? && |blk.words| == WORDS
    case RDir(i) => i < |t.dirs| && AsDir(blk) == DirBlk(DirAt(t, i + 1), t.dirs[i].name, t.dirs[i].slots)
    case RInode(_, _) => b in t.files && AsInode(blk) == InodeBlk(InodeOf(t.files[b]))
    case RFrame(f, j) =>
      && f in t.files && j < |t.files[f].chain|
      && AsFrame(blk) == FrameBlk(FrameAt(t.files[f], j + 1), t.files[f].chain[j].content)
    case RData(_, _, _) => blk.DataBlk? && |blk.bytes| == BLOCK_SIZE
  }

  /**
   The image holds the tree, its blocks are exactly those with a role, and
   each of them is marked in the image's own freemap block.
   */
  ghost predicate Consistent(d: seq<Block>, t: Tree, r: map<nat, Role>) {
    && |d| == BLOCKS
    && Placed(t, r)
    && (forall b | b in r :: b < BLOCKS && Home(t, r, b) && Holds(d[b], t, b, r[b]))
    && (forall b | b in r :: Marked(MapOf(d), b))
  }

  /** The freemap words in block 1. */
  function MapOf(d: seq<Block>): (w: seq<bv32>) {
    if |d| > 1 && d[1].FreemapBlk? then d[1].words else []
  }
}
