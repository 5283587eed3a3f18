/** The two writes that take a part out of the tree: a file, or a directory. */
module Unlinks {
  import opened Bits
  import opened Layout
  import opened Steps

  // ---- a file ----

  /** The roles without those of file f: its inode, its frames and its content blocks. */
  function Without(r: map<nat, Role>, f: nat): map<nat, Role> {
    map b | b in r && b != f && !OfFile(r[b], f) :: r[b]
  }

  function RemovedFile(t: Tree, i: nat, s: nat, f: nat): Tree
    requires i < |t.dirs| && s < |t.dirs[i].slots|
  {
    Tree(t.dirs[i := t.dirs[i].(slots := t.dirs[i].slots[s := 0])], t.files - {f})
  }

  lemma RemovedPlaced(t: Tree, r: map<nat, Role>, i: nat, s: nat, f: nat)
    requires Placed(t, r) && i < |t.dirs| && s < NINODES
    requires |t.dirs[i].slots| == NINODES && t.dirs[i].slots[s] == f && f != 0
    ensures Placed(RemovedFile(t, i, s, f), Without(r, f))
  {
    var t', r' := RemovedFile(t, i, s, f), Without(r, f);
    assert DirPlaced(t.dirs[i], i, t, r);
    assert r[f] == RInode(t.dirs[i].bid, s);
    forall k | 0 <= k < |t'.dirs|
      ensures DirPlaced(t'.dirs[k], k, t', r')
    {
      assert DirPlaced(t.dirs[k], k, t, r);
    }
    forall g | g in t'.files
      ensures FilePlaced(g, t'.files[g], r')
    {
      assert FilePlaced(g, t.files[g], r);
      forall j | 0 <= j < |t.files[g].chain|
        ensures FramePlaced(g, j, t.files[g].chain[j], r')
      {
        assert FramePlaced(g, j, t.files[g].chain[j], r);
      }
    }
  }

  lemma RemovedBlock(d: seq<Block>, t: Tree, r: map<nat, Role>, i: nat, s: nat, f: nat, c: nat)
    requires i < |t.dirs| && s < NINODES && |t.dirs[i].slots| == NINODES && t.dirs[i].slots[s] == f
    requires t.dirs[i].bid in r && r[t.dirs[i].bid] == RDir(i)
    requires f in r && r[f] == RInode(t.dirs[i].bid, s)
    requires c in Without(r, f) && c < |d| && Home(t, r, c) && Holds(d[c], t, c, r[c])
    ensures Home(RemovedFile(t, i, s, f), Without(r, f), c)
    ensures c != t.dirs[i].bid ==> Holds(d[c], RemovedFile(t, i, s, f), c, r[c])
    ensures Holds(DirImage(t, i, t.dirs[i].name, t.dirs[i].slots[s := 0]), RemovedFile(t, i, s, f), t.dirs[i].bid, RDir(i))
  {
  }

  /** Writing directory i with slot s cleared. */
  lemma UnlinkFile(d: seq<Block>, t: Tree, r: map<nat, Role>, i: nat, s: nat, f: nat)
    requires Consistent(d, t, r) && i < |t.dirs| && s < NINODES
    requires |t.dirs[i].slots| == NINODES && t.dirs[i].slots[s] == f && f != 0
    ensures t.dirs[i].bid in r && t.dirs[i].bid < BLOCKS && f in r && f in t.files
    ensures Consistent(d[t.dirs[i].bid := DirImage(t, i, t.dirs[i].name, t.dirs[i].slots[s := 0])],
                       RemovedFile(t, i, s, f), Without(r, f))
  {
    hide Marked, Placed, Home, Holds;
    PlacedDir(t, r, i);
    var t', r' := RemovedFile(t, i, s, f), Without(r, f);
    RemovedPlaced(t, r, i, s, f);
    var at := t.dirs[i].bid;
    var d' := d[at := DirImage(t, i, t.dirs[i].name, t.dirs[i].slots[s := 0])];
    assert MapOf(d') == MapOf(d);
    forall c | c in r'
      ensures c < BLOCKS && Home(t', r', c) && Holds(d'[c], t', c, r'[c])
    {
      RemovedBlock(d, t, r, i, s, f, c);
    }
  }

  // ---- a directory ----

  /** The block is the inode, a frame or a content block of a file in directory dir. */
  predicate InDir(r: map<nat, Role>, b: nat, dir: nat)
    requires b in r
  {
    match r[b]
    case RInode(p, _) => p == dir
    case RFrame(g, _) => g in r && r[g].RInode? && r[g].dir == dir
    case RData(g, _, _) => g in r && r[g].RInode? && r[g].dir == dir
    case _ => false
  }

  /** Directories after position i move up by one. */
  function Shifted(role: Role, i: nat): Role {
    if role.RDir? && role.idx > i then RDir(role.idx - 1) else role
  }

  function WithoutDir(r: map<nat, Role>, dir: nat, i: nat): map<nat, Role> {
    map b | b in r && b != dir && !InDir(r, b, dir) :: Shifted(r[b], i)
  }

  function RemovedDir(t: Tree, r: map<nat, Role>, i: nat): Tree
    requires i < |t.dirs|
  {
    Tree(t.dirs[..i] + t.dirs[i + 1..],
         map f | f in t.files && f in r && !InDir(r, f, t.dirs[i].bid) :: t.files[f])
  }

  /** The block that links directory i, with the link moved to the next one. */
  function LinkPast(t: Tree, i: nat): (nat, Block)
    requires i < |t.dirs|
  {
    if i == 0 then
      (0, SuperBlk(Superblock(SFS_MAGIC, 1024, 1, DirAt(t, 1))))
    else
      (t.dirs[i - 1].bid, DirBlk(DirAt(t, i + 1), t.dirs[i - 1].name, t.dirs[i - 1].slots))
  }

  lemma RemovedDirPlaced(t: Tree, r: map<nat, Role>, i: nat)
    requires Placed(t, r) && i < |t.dirs|
    ensures Placed(RemovedDir(t, r, i), WithoutDir(r, t.dirs[i].bid, i))
  {
    var dir := t.dirs[i].bid;
    var t', r' := RemovedDir(t, r, i), WithoutDir(r, dir, i);
    assert DirPlaced(t.dirs[i], i, t, r);
    forall k | 0 <= k < |t'.dirs|
      ensures DirPlaced(t'.dirs[k], k, t', r')
    {
      var k0 := if k < i then k else k + 1;
      assert t'.dirs[k] == t.dirs[k0];
      assert DirPlaced(t.dirs[k0], k0, t, r);
    }
    forall g | g in t'.files
      ensures FilePlaced(g, t'.files[g], r')
    {
      assert FilePlaced(g, t.files[g], r);
      forall j | 0 <= j < |t.files[g].chain|
        ensures FramePlaced(g, j, t.files[g].chain[j], r')
      {
        assert FramePlaced(g, j, t.files[g].chain[j], r);
      }
    }
  }

  lemma RemovedDirHome(t: Tree, r: map<nat, Role>, i: nat, c: nat)
    requires i < |t.dirs| && t.dirs[i].bid in r && r[t.dirs[i].bid] == RDir(i)
    requires c in WithoutDir(r, t.dirs[i].bid, i) && Home(t, r, c)
    requires OwnerIsPlaced(t, r, c)
    ensures Home(RemovedDir(t, r, i), WithoutDir(r, t.dirs[i].bid, i), c)
  {
  }

  /** A frame or content block belongs to a file with an inode, an inode to a directory. */
  ghost predicate OwnerIsPlaced(t: Tree, r: map<nat, Role>, c: nat)
    requires c in r
  {
    match r[c]
    case RFrame(g, _) => g in r && r[g].RInode?
    case RData(g, _, _) => g in r && r[g].RInode?
    case RInode(p, _) => p in r && r[p].RDir? && r[p].idx < |t.dirs| && t.dirs[r[p].idx].bid == p
    case _ => true
  }

  lemma RemovedDirHolds(d: seq<Block>, t: Tree, r: map<nat, Role>, i: nat, c: nat)
    requires i < |t.dirs| && t.dirs[i].bid in r && r[t.dirs[i].bid] == RDir(i)
    requires i > 0 ==> t.dirs[i - 1].bid in r && r[t.dirs[i - 1].bid] == RDir(i - 1)
    requires 0 in r && r[0] == RSuper
    requires c in WithoutDir(r, t.dirs[i].bid, i) && c < |d| && Home(t, r, c) && Holds(d[c], t, c, r[c])
    requires OwnerIsPlaced(t, r, c)
    ensures var t' := RemovedDir(t, r, i); var (at, x) := LinkPast(t, i);
      && (c != at ==> Holds(d[c], t', c, Shifted(r[c], i)))
      && (c == at ==> Holds(x, t', c, Shifted(r[c], i)))
  {
  }

  /** Writing the link around directory i, whether or not it still has files. */
  lemma UnlinkDir(d: seq<Block>, t: Tree, r: map<nat, Role>, i: nat)
    requires Consistent(d, t, r) && i < |t.dirs|
    ensures t.dirs[i].bid in r && r[t.dirs[i].bid] == RDir(i) && t.dirs[i].bid > 1
    ensures LinkPast(t, i).0 < BLOCKS && LinkPast(t, i).0 in r && LinkPast(t, i).0 != 1
    ensures Consistent(d[LinkPast(t, i).0 := LinkPast(t, i).1], RemovedDir(t, r, i), WithoutDir(r, t.dirs[i].bid, i))
  {
    hide Marked, Placed, Home, Holds, OwnerIsPlaced;
    PlacedDir(t, r, i);
    PlacedDir(t, r, i - 1);
    var dir := t.dirs[i].bid;
    var t', r' := RemovedDir(t, r, i), WithoutDir(r, dir, i);
    RemovedDirPlaced(t, r, i);
    var (at, x) := LinkPast(t, i);
    var d' := d[at := x];
    assert MapOf(d') == MapOf(d);
    forall c | c in r'
      ensures c < BLOCKS && Home(t', r', c) && Holds(d'[c], t', c, r'[c])
    {
      OwnerPlaced(d, t, r, c);
      RemovedDirHome(t, r, i, c);
      RemovedDirHolds(d, t, r, i, c);
    }
  }

  lemma OwnerPlaced(d: seq<Block>, t: Tree, r: map<nat, Role>, c: nat)
    requires Consistent(d, t, r) && c in r
    ensures OwnerIsPlaced(t, r, c)
  {
    hide Marked, Holds, Placed, FilePlaced;
    BlockFacts(d, t, r, c);
    match r[c]
    case RInode(p, _) => BlockFacts(d, t, r, p);
    case RFrame(g, _) => PlacedFile(t, r, g);
    case RData(g, _, _) => PlacedFile(t, r, g);
    case _ =>
  }
}
