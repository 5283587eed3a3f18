/**
 What can be reached from block 0 of a raw image by following block ids. This
 says nothing of trees or roles; it is what the other modules' invariant means.
 */
module Reachability {
  import opened Bits
  import opened Layout
  import opened Steps

  /** The structure that a pointer takes its target for. */
  datatype Kind = KSuper | KDir | KInode | KFrame | KData

  datatype Ref = Ref(kind: Kind, bid: nat)

  const ROOT: Ref := Ref(KSuper, 0)

  /** The block id in a field of a block; 0 is no block. */
  function Pointer(d: seq<Block>, p: Ref, field: nat): nat {
    if p.bid >= |d| then 0 else
      match p.kind
      case KSuper => if d[p.bid].SuperBlk? && field == 0 then d[p.bid].sb.firstDir else 0
      case KDir =>
        var x := AsDir(d[p.bid]);
        if !x.DirBlk? then 0 else
        if field == 0 then x.nextDir else
        if field - 1 < |x.inodes| then x.inodes[field - 1] else 0
      case KInode =>
        var x := AsInode(d[p.bid]);
        if x.InodeBlk? && field == 0 then x.inode.firstFrame else 0
      case KFrame =>
        var x := AsFrame(d[p.bid]);
        if !x.FrameBlk? then 0 else
        if field == 0 then x.next else
        if field - 1 < |x.content| then x.content[field - 1] else 0
      case KData => 0
  }

  function TargetKind(kind: Kind, field: nat): Kind {
    match kind
    case KSuper => KDir
    case KDir => if field == 0 then KDir else KInode
    case KInode => KFrame
    case KFrame => if field == 0 then KFrame else KData
    case KData => KData
  }

  ghost predicate Points(d: seq<Block>, p: Ref, field: nat, q: Ref) {
    q.bid != 0 && Pointer(d, p, field) == q.bid && TargetKind(p.kind, field) == q.kind
  }

  /** q is reached from the superblock in n steps. */
  ghost predicate Reach(d: seq<Block>, q: Ref, n: nat)
    decreases n
  {
    if n == 0 then q == ROOT else exists p: Ref, field: nat :: Reach(d, p, n - 1) && Points(d, p, field, q)
  }

  ghost predicate Reachable(d: seq<Block>, b: nat) {
    exists kind, n: nat :: Reach(d, Ref(kind, b), n)
  }

  /** Every reachable block is on the disk and marked. */
  ghost predicate ReachedAreMarked(d: seq<Block>) {
    forall q: Ref, n: nat :: Reach(d, q, n) ==> q.bid < |d| && Marked(MapOf(d), q.bid)
  }

  /** No two fields of reachable blocks name the same block. */
  ghost predicate OneParent(d: seq<Block>) {
    forall p: Ref, i: nat, m: nat, q: Ref, j: nat, n: nat, a: Ref, b: Ref ::
      Reach(d, p, m) && Reach(d, q, n) && Points(d, p, i, a) && Points(d, q, j, b) && a.bid == b.bid
      ==> p == q && i == j
  }

  /** Every path to a block has the same length, so no chain has a cycle. */
  ghost predicate Acyclic(d: seq<Block>) {
    forall q: Ref, m: nat, n: nat :: Reach(d, q, m) && Reach(d, q, n) ==> m == n
  }

  /** What holds of the image between any two block writes. */
  ghost predicate SafeImage(d: seq<Block>) {
    ReachedAreMarked(d) && OneParent(d) && Acyclic(d)
  }

  /** The marked blocks are the freemap block and the reachable blocks, and no others. */
  ghost predicate ExactMap(d: seq<Block>) {
    forall b: nat | b < BLOCKS :: Marked(MapOf(d), b) <==> b == 1 || Reachable(d, b)
  }

  // ---- the roles of a consistent image are its reachable blocks ----

  function KindOf(role: Role): Kind {
    match role
    case RSuper => KSuper
    case RFreemap => KData
    case RDir(_) => KDir
    case RInode(_, _) => KInode
    case RFrame(_, _) => KFrame
    case RData(_, _, _) => KData
  }

  /** The block and field that name the block with this role. */
  function Parent(t: Tree, role: Role): (nat, nat) {
    match role
    case RDir(i) => (if 0 < i <= |t.dirs| then t.dirs[i - 1].bid else 0, 0)
    case RInode(p, s) => (p, s + 1)
    case RFrame(f, j) => (if f in t.files && 0 < j <= |t.files[f].chain| then t.files[f].chain[j - 1].bid else f, 0)
    case RData(f, j, k) => (if f in t.files && j < |t.files[f].chain| then t.files[f].chain[j].bid else 0, k + 1)
    case _ => (0, 0)
  }

  /** The reference is to a block of the tree, as what it is. */
  ghost predicate Known(r: map<nat, Role>, q: Ref) {
    q.bid in r && KindOf(r[q.bid]) == q.kind && !r[q.bid].RFreemap?
  }

  lemma StepKnown(d: seq<Block>, t: Tree, r: map<nat, Role>, p: Ref, field: nat, q: Ref)
    requires Consistent(d, t, r) && Known(r, p) && Points(d, p, field, q)
    ensures Known(r, q) && !r[q.bid].RSuper? && Parent(t, r[q.bid]) == (p.bid, field)
  {
    hide Consistent, Holds, Points, Parent;
    BlockFacts(d, t, r, p.bid);
    match r[p.bid]
    case RSuper => StepFromRoot(d, t, r, p, field, q);
    case RDir(i) => StepFromDir(d, t, r, i, p, field, q);
    case RInode(_, _) => StepFromInode(d, t, r, p, field, q);
    case RFrame(f, j) => StepFromFrame(d, t, r, f, j, p, field, q);
    case RData(_, _, _) => NoStep(d, p, field, q);
  }

  lemma NoStep(d: seq<Block>, p: Ref, field: nat, q: Ref)
    requires p.kind == KData
    ensures !Points(d, p, field, q)
  {
  }

  lemma StepFromRoot(d: seq<Block>, t: Tree, r: map<nat, Role>, p: Ref, field: nat, q: Ref)
    requires Consistent(d, t, r) && Known(r, p) && p == ROOT && Points(d, p, field, q)
    ensures Known(r, q) && !r[q.bid].RSuper? && Parent(t, r[q.bid]) == (p.bid, field)
  {
    hide Consistent;
    LengthFact(d, t, r);
    FirstDirKnown(d, t, r);
  }

  lemma StepFromDir(d: seq<Block>, t: Tree, r: map<nat, Role>, i: nat, p: Ref, field: nat, q: Ref)
    requires Consistent(d, t, r) && Known(r, p) && r[p.bid] == RDir(i) && Points(d, p, field, q)
    ensures Known(r, q) && !r[q.bid].RSuper? && Parent(t, r[q.bid]) == (p.bid, field)
  {
    hide Consistent, AsFrame, AsInode, AsDir;
    BlockFacts(d, t, r, p.bid);
    DirFieldKnown(d, t, r, i, field);
  }

  lemma StepFromInode(d: seq<Block>, t: Tree, r: map<nat, Role>, p: Ref, field: nat, q: Ref)
    requires Consistent(d, t, r) && Known(r, p) && r[p.bid].RInode? && Points(d, p, field, q)
    ensures Known(r, q) && !r[q.bid].RSuper? && Parent(t, r[q.bid]) == (p.bid, field)
  {
    hide Consistent, AsFrame, AsInode, AsDir;
    BlockFacts(d, t, r, p.bid);
    InodeFieldKnown(d, t, r, p.bid);
  }

  lemma StepFromFrame(d: seq<Block>, t: Tree, r: map<nat, Role>, f: nat, j: nat, p: Ref, field: nat, q: Ref)
    requires Consistent(d, t, r) && Known(r, p) && r[p.bid] == RFrame(f, j) && Points(d, p, field, q)
    ensures Known(r, q) && !r[q.bid].RSuper? && Parent(t, r[q.bid]) == (p.bid, field)
  {
    hide Consistent, AsFrame, AsInode, AsDir;
    BlockFacts(d, t, r, p.bid);
    FrameFieldKnown(d, t, r, f, j, field);
  }

  lemma FirstDirKnown(d: seq<Block>, t: Tree, r: map<nat, Role>)
    requires Consistent(d, t, r)
    ensures |t.dirs| > 0 ==> t.dirs[0].bid in r && r[t.dirs[0].bid] == RDir(0)
  {
    hide Marked, Holds, Home;
    PlacedDir(t, r, 0);
  }

  lemma DirFieldKnown(d: seq<Block>, t: Tree, r: map<nat, Role>, i: nat, field: nat)
    requires Consistent(d, t, r) && i < |t.dirs|
    ensures i + 1 < |t.dirs| ==> t.dirs[i + 1].bid in r && r[t.dirs[i + 1].bid] == RDir(i + 1)
    ensures |t.dirs[i].slots| == NINODES
    ensures 0 < field <= NINODES && t.dirs[i].slots[field - 1] != 0 ==>
              t.dirs[i].slots[field - 1] in r && r[t.dirs[i].slots[field - 1]] == RInode(t.dirs[i].bid, field - 1)
  {
    hide Marked, Holds, Home;
    PlacedDir(t, r, i);
    PlacedDir(t, r, i + 1);
  }

  lemma InodeFieldKnown(d: seq<Block>, t: Tree, r: map<nat, Role>, f: nat)
    requires Consistent(d, t, r) && f in t.files
    ensures t.files[f].chain != [] ==>
              t.files[f].chain[0].bid in r && r[t.files[f].chain[0].bid] == RFrame(f, 0)
  {
    hide Consistent;
    if t.files[f].chain != [] {
      FrameFacts(d, t, r, f, 0);
    }
  }

  lemma FrameFieldKnown(d: seq<Block>, t: Tree, r: map<nat, Role>, f: nat, j: nat, field: nat)
    requires Consistent(d, t, r) && f in t.files && j < |t.files[f].chain|
    ensures j + 1 < |t.files[f].chain| ==>
              t.files[f].chain[j + 1].bid in r && r[t.files[f].chain[j + 1].bid] == RFrame(f, j + 1)
    ensures |t.files[f].chain[j].content| == FRAME_COUNT
    ensures 0 < field <= FRAME_COUNT && t.files[f].chain[j].content[field - 1] != 0 ==>
              var b := t.files[f].chain[j].content[field - 1];
              b in r && r[b] == RData(f, j, field - 1)
  {
    hide Consistent;
    FrameFacts(d, t, r, f, j);
    if j + 1 < |t.files[f].chain| {
      FrameFacts(d, t, r, f, j + 1);
    }
    if 0 < field <= FRAME_COUNT {
      DataFacts(d, t, r, f, j, field - 1);
    }
  }

  lemma {:induction false} ReachKnown(d: seq<Block>, t: Tree, r: map<nat, Role>, q: Ref, n: nat)
    requires Consistent(d, t, r) && Reach(d, q, n)
    ensures Known(r, q)
    ensures n == 0 <==> r[q.bid].RSuper?
    decreases n
  {
    hide Consistent, Points;
    LengthFact(d, t, r);
    if n != 0 {
      var p: Ref, field: nat :| Reach(d, p, n - 1) && Points(d, p, field, q);
      ReachKnown(d, t, r, p, n - 1);
      StepKnown(d, t, r, p, field, q);
    }
  }

  lemma {:induction false} UniqueDepth(d: seq<Block>, t: Tree, r: map<nat, Role>, q: Ref, m: nat, n: nat)
    requires Consistent(d, t, r) && Reach(d, q, m) && Reach(d, q, n)
    ensures m == n
    decreases m
  {
    hide Consistent, Points, Parent;
    ReachKnown(d, t, r, q, m);
    ReachKnown(d, t, r, q, n);
    if m != 0 && n != 0 {
      var p: Ref, i: nat :| Reach(d, p, m - 1) && Points(d, p, i, q);
      var p': Ref, j: nat :| Reach(d, p', n - 1) && Points(d, p', j, q);
      ReachKnown(d, t, r, p, m - 1);
      ReachKnown(d, t, r, p', n - 1);
      StepKnown(d, t, r, p, i, q);
      StepKnown(d, t, r, p', j, q);
      UniqueDepth(d, t, r, p, m - 1, n - 1);
    }
  }

  /** An image that holds a tree is safe. */
  lemma ConsistentIsSafe(d: seq<Block>, t: Tree, r: map<nat, Role>)
    requires Consistent(d, t, r)
    ensures SafeImage(d)
  {
    hide Consistent, Points, Reach, Parent, Marked, Home, Holds;
    LengthFact(d, t, r);
    forall q: Ref, n: nat | Reach(d, q, n)
      ensures q.bid < |d| && Marked(MapOf(d), q.bid)
    {
      ReachKnown(d, t, r, q, n);
      BlockFacts(d, t, r, q.bid);
    }
    forall p: Ref, i: nat, m: nat, q: Ref, j: nat, n: nat, a: Ref, b: Ref |
      Reach(d, p, m) && Reach(d, q, n) && Points(d, p, i, a) && Points(d, q, j, b) && a.bid == b.bid
      ensures p == q && i == j
    {
      ReachKnown(d, t, r, p, m);
      ReachKnown(d, t, r, q, n);
      StepKnown(d, t, r, p, i, a);
      StepKnown(d, t, r, q, j, b);
    }
    forall q: Ref, m: nat, n: nat | Reach(d, q, m) && Reach(d, q, n)
      ensures m == n
    {
      UniqueDepth(d, t, r, q, m, n);
    }
  }

  // ---- and every block of the tree is reached ----

  lemma DirReached(d: seq<Block>, t: Tree, r: map<nat, Role>, i: nat)
    requires Consistent(d, t, r) && i < |t.dirs|
    ensures Reach(d, Ref(KDir, t.dirs[i].bid), i + 1)
  {
    hide Consistent, Home, Marked;
    LengthFact(d, t, r);
    if i == 0 {
      FirstDirKnown(d, t, r);
      UsedIsPositive(d, t, r, t.dirs[0].bid);
      assert Reach(d, ROOT, 0);
      assert Points(d, ROOT, 0, Ref(KDir, t.dirs[0].bid));
    } else {
      DirReached(d, t, r, i - 1);
      var p := Ref(KDir, t.dirs[i - 1].bid);
      DirFieldKnown(d, t, r, i - 1, 0);
      DirBlockFacts(d, t, r, i - 1);
      UsedIsPositive(d, t, r, t.dirs[i].bid);
      assert Points(d, p, 0, Ref(KDir, t.dirs[i].bid));
    }
  }

  /** The block of directory i. */
  lemma DirBlockFacts(d: seq<Block>, t: Tree, r: map<nat, Role>, i: nat)
    requires Consistent(d, t, r) && i < |t.dirs|
    ensures DirPlaced(t.dirs[i], i, t, r)
    ensures t.dirs[i].bid in r && t.dirs[i].bid < |d| && t.dirs[i].bid > 1 && r[t.dirs[i].bid] == RDir(i)
    ensures AsDir(d[t.dirs[i].bid]) == DirBlk(DirAt(t, i + 1), t.dirs[i].name, t.dirs[i].slots)
  {
    hide Placed, Home, Marked, AsDir, AsFrame;
    PlacedDir(t, r, i);
    LengthFact(d, t, r);
    BlockFacts(d, t, r, t.dirs[i].bid);
  }

  lemma UsedIsPositive(d: seq<Block>, t: Tree, r: map<nat, Role>, b: nat)
    requires Consistent(d, t, r) && b in r && !r[b].RSuper?
    ensures b != 0
  {
    hide Consistent;
    LengthFact(d, t, r);
  }

  lemma InodeReached(d: seq<Block>, t: Tree, r: map<nat, Role>, f: nat)
    requires Consistent(d, t, r) && f in t.files
    ensures exists n: nat :: n > 0 && Reach(d, Ref(KInode, f), n)
  {
    hide Consistent, Marked, Reach;
    FileFacts(d, t, r, f);
    BlockFacts(d, t, r, f);
    var p := r[f].dir;
    var i := r[p].idx;
    DirReached(d, t, r, i);
    BlockFacts(d, t, r, p);
    DirBlockFacts(d, t, r, i);
    UsedIsPositive(d, t, r, f);
    SlotPoints(d, p, r[f].slot, f);
    Onward(d, Ref(KDir, p), i + 1, r[f].slot + 1, Ref(KInode, f));
  }

  lemma SlotPoints(d: seq<Block>, p: nat, s: nat, f: nat)
    requires p < |d| && AsDir(d[p]).DirBlk? && s < |AsDir(d[p]).inodes| && AsDir(d[p]).inodes[s] == f && f != 0
    ensures Points(d, Ref(KDir, p), s + 1, Ref(KInode, f))
  {
  }

  lemma Onward(d: seq<Block>, p: Ref, n: nat, field: nat, q: Ref)
    requires Reach(d, p, n) && Points(d, p, field, q)
    ensures Reach(d, q, n + 1)
  {
    hide Points;
  }

  lemma FrameReached(d: seq<Block>, t: Tree, r: map<nat, Role>, f: nat, j: nat)
    requires Consistent(d, t, r) && f in t.files && j < |t.files[f].chain|
    ensures exists n: nat :: n > 0 && Reach(d, Ref(KFrame, t.files[f].chain[j].bid), n)
    decreases j
  {
    hide Consistent, Marked, Reach, FilePlaced, FileFits;
    FrameFacts(d, t, r, f, j);
    FileFacts(d, t, r, f);
    LengthFact(d, t, r);
    var q := Ref(KFrame, t.files[f].chain[j].bid);
    if j == 0 {
      InodeReached(d, t, r, f);
      var n: nat :| n > 0 && Reach(d, Ref(KInode, f), n);
      assert Points(d, Ref(KInode, f), 0, q);
      Onward(d, Ref(KInode, f), n, 0, q);
    } else {
      FrameReached(d, t, r, f, j - 1);
      FrameFacts(d, t, r, f, j - 1);
      var p := Ref(KFrame, t.files[f].chain[j - 1].bid);
      var n: nat :| n > 0 && Reach(d, p, n);
      assert Points(d, p, 0, q);
      Onward(d, p, n, 0, q);
    }
  }

  lemma RoleReached(d: seq<Block>, t: Tree, r: map<nat, Role>, b: nat)
    requires Consistent(d, t, r) && b in r && b != 1
    ensures exists n: nat :: Reach(d, Ref(KindOf(r[b]), b), n)
  {
    hide Consistent, Marked, Reach, AsFrame, AsDir, AsInode, FilePlaced;
    BlockFacts(d, t, r, b);
    match r[b]
    case RSuper =>
      RootReached(d);
      assert Reach(d, Ref(KindOf(r[b]), b), 0);
    case RDir(i) =>
      DirReached(d, t, r, i);
      assert Reach(d, Ref(KindOf(r[b]), b), i + 1);
    case RInode(_, _) =>
      InodeReached(d, t, r, b);
      var n: nat :| n > 0 && Reach(d, Ref(KInode, b), n);
      assert Reach(d, Ref(KindOf(r[b]), b), n);
    case RFrame(f, j) =>
      FrameReached(d, t, r, f, j);
      var n: nat :| n > 0 && Reach(d, Ref(KFrame, b), n);
      assert Reach(d, Ref(KindOf(r[b]), b), n);
    case RData(f, j, k) =>
      FrameReached(d, t, r, f, j);
      FrameFacts(d, t, r, f, j);
      LengthFact(d, t, r);
      UsedIsPositive(d, t, r, b);
      var p := Ref(KFrame, t.files[f].chain[j].bid);
      var n: nat :| n > 0 && Reach(d, p, n);
      assert Points(d, p, k + 1, Ref(KData, b));
      Onward(d, p, n, k + 1, Ref(KData, b));
      assert Reach(d, Ref(KindOf(r[b]), b), n + 1);
  }

  lemma RootReached(d: seq<Block>)
    ensures Reach(d, ROOT, 0)
  {
  }

  /** In an image that holds a tree, the blocks with a role are the reachable ones and the freemap block. */
  lemma RolesAreReached(d: seq<Block>, t: Tree, r: map<nat, Role>, b: nat)
    requires Consistent(d, t, r)
    ensures b in r <==> b == 1 || Reachable(d, b)
  {
    hide Consistent, Reach;
    LengthFact(d, t, r);
    if b in r && b != 1 {
      RoleReached(d, t, r, b);
    }
    if Reachable(d, b) {
      var kind, n: nat :| Reach(d, Ref(kind, b), n);
      ReachKnown(d, t, r, Ref(kind, b), n);
    }
  }
}
