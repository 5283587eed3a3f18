/**
 The invariant of the whole store, and what each block write does to it. The
 spare blocks are those that are marked but have no place in the tree: just
 allocated, about to be freed, or lost.
 */
module Store {
  import opened Bits
  import opened Contents
  import opened Layout
  import opened Reachability
  import opened Steps
  import opened Unlinks

  /** The image holds the tree; the marked blocks are those of the tree and the spare ones; unused bytes are zero. */
  ghost predicate Sound(d: seq<Block>, t: Tree, r: map<nat, Role>, spare: set<nat>) {
    && Consistent(d, t, r)
    && MapIs(d, r.Keys, spare)
    && forall f | f in t.files :: ZeroTail(d, t.files[f])
  }

  ghost predicate MapIs(d: seq<Block>, used: set<nat>, spare: set<nat>) {
    && used !! spare
    && (forall b | b in spare :: b < BLOCKS)
    && forall b: nat | b < BLOCKS :: Marked(MapOf(d), b) <==> b in used || b in spare
  }

  /** Every file of t is in t2 with the same bytes. */
  ghost predicate KeepsFiles(d: seq<Block>, t: Tree, d2: seq<Block>, t2: Tree) {
    forall f | f in t.files :: f in t2.files && SameBytes(d, t.files[f], d2, t2.files[f])
  }

  /** With no spare blocks, the marked blocks are exactly the reachable ones and the freemap block. */
  lemma SoundIsExact(d: seq<Block>, t: Tree, r: map<nat, Role>, spare: set<nat>)
    requires Sound(d, t, r, spare)
    ensures SafeImage(d)
    ensures spare == {} <==> ExactMap(d)
  {
    hide Consistent, SafeImage, Reachable, Marked;
    ConsistentIsSafe(d, t, r);
    forall b: nat | b < BLOCKS
      ensures b in r <==> b == 1 || Reachable(d, b)
    {
      RolesAreReached(d, t, r, b);
    }
    if spare != {} {
      var b :| b in spare;
      assert Marked(MapOf(d), b) && !(b == 1 || Reachable(d, b));
    }
  }

  // ---- allocation ----

  function MarkedImage(d: seq<Block>, b: nat): seq<Block>
    requires |d| == BLOCKS && b / 32 < |MapOf(d)|
  {
    d[1 := FreemapBlk(SetMark(MapOf(d), b))]
  }

  function ClearedImage(d: seq<Block>, b: nat): seq<Block>
    requires |d| == BLOCKS && b / 32 < |MapOf(d)|
  {
    d[1 := FreemapBlk(ClearMark(MapOf(d), b))]
  }

  lemma AllocSound(d: seq<Block>, t: Tree, r: map<nat, Role>, spare: set<nat>, b: nat)
    requires Sound(d, t, r, spare) && b < BLOCKS && |MapOf(d)| == WORDS && !Marked(MapOf(d), b)
    ensures |d| == BLOCKS && b > 1 && b !in r && b !in spare
    ensures SafeImage(MarkedImage(d, b))
    ensures var d2 := MarkedImage(d, b)[b := ZERO_BLOCK];
      && SafeImage(d2) && Sound(d2, t, r, spare + {b}) && KeepsFiles(d, t, d2, t)
      && MapOf(d2) == SetMark(MapOf(d), b)
      && FreeCount(MapOf(d2)) == FreeCount(MapOf(d)) - 1
  {
    hide Consistent, Marked, SafeImage, FreeCount, ZeroTail, SameBytes, SetMark;
    LengthFact(d, t, r);
    var d1 := MarkedImage(d, b);
    var d2 := d1[b := ZERO_BLOCK];
    MarksAfter(MapOf(d), b);
    FreeCountUpdate(MapOf(d), b);
    WriteMap(d, t, r, SetMark(MapOf(d), b));
    ConsistentIsSafe(d1, t, r);
    WriteSpare(d1, t, r, b, ZERO_BLOCK);
    ConsistentIsSafe(d2, t, r);
    assert MapOf(d2) == SetMark(MapOf(d), b);
    AllKeep(d, t, r, d2);
  }

  lemma MarksAfter(w: seq<bv32>, b: nat)
    requires b / 32 < |w|
    ensures |SetMark(w, b)| == |w| && |ClearMark(w, b)| == |w|
    ensures forall c: nat :: Marked(SetMark(w, b), c) <==> c == b || Marked(w, c)
    ensures forall c: nat :: Marked(ClearMark(w, b), c) <==> c != b && Marked(w, c)
  {
    hide Marked;
    forall c: nat
      ensures Marked(SetMark(w, b), c) <==> c == b || Marked(w, c)
      ensures Marked(ClearMark(w, b), c) <==> c != b && Marked(w, c)
    {
      MarkUpdate(w, b, c);
    }
  }

  /** A change of blocks that are not content keeps every file and its zero tail. */
  lemma AllKeep(d: seq<Block>, t: Tree, r: map<nat, Role>, d2: seq<Block>)
    requires Consistent(d, t, r) && |d2| == |d|
    requires forall b | b in r && r[b].RData? && b < |d| :: d2[b] == d[b]
    ensures KeepsFiles(d, t, d2, t)
    ensures (forall f | f in t.files :: ZeroTail(d, t.files[f])) ==> forall f | f in t.files :: ZeroTail(d2, t.files[f])
  {
    hide Consistent, At;
    forall f | f in t.files
      ensures SameBytes(d, t.files[f], d2, t.files[f])
      ensures ZeroTail(d, t.files[f]) ==> ZeroTail(d2, t.files[f])
    {
      KeepBytes(d, t, r, d2, f);
    }
  }

  lemma FreeSound(d: seq<Block>, t: Tree, r: map<nat, Role>, spare: set<nat>, b: nat)
    requires Sound(d, t, r, spare) && b in spare && |MapOf(d)| == WORDS
    ensures |d| == BLOCKS && b < BLOCKS
    ensures var d2 := ClearedImage(d, b);
      && SafeImage(d2) && Sound(d2, t, r, spare - {b}) && KeepsFiles(d, t, d2, t)
      && FreeCount(MapOf(d2)) == FreeCount(MapOf(d)) + 1
  {
    hide Consistent, Marked, SafeImage, FreeCount, ZeroTail, SameBytes, ClearMark;
    LengthFact(d, t, r);
    var d2 := ClearedImage(d, b);
    MarksAfter(MapOf(d), b);
    FreeCountUpdate(MapOf(d), b);
    WriteMap(d, t, r, ClearMark(MapOf(d), b));
    ConsistentIsSafe(d2, t, r);
    AllKeep(d, t, r, d2);
  }

  // ---- writes that move a spare block into the tree ----

  /** The free blocks are those that are neither in the tree nor spare. */
  lemma FreeIsRest(d: seq<Block>, t: Tree, r: map<nat, Role>, spare: set<nat>)
    requires Sound(d, t, r, spare)
    ensures FreeCount(MapOf(d)) == BLOCKS - |r| - |spare|
  {
    hide Consistent, ZeroTail, Marked;
    SoundFacts(d, t, r, spare);
    forall b | b in r
      ensures b < BLOCKS
    {
      BlockFacts(d, t, r, b);
    }
    assert MarkedSet(MapOf(d)) == r.Keys + spare;
  }

  lemma SpareIsFresh(d: seq<Block>, t: Tree, r: map<nat, Role>, spare: set<nat>, b: nat)
    requires Sound(d, t, r, spare) && b in spare && b < |d| && d[b] == ZERO_BLOCK
    ensures Fresh(d, r, b)
  {
    hide Consistent, Marked, ZeroTail;
  }

  lemma AppendDirSound(d: seq<Block>, t: Tree, r: map<nat, Role>, spare: set<nat>, b: nat)
    requires Sound(d, t, r, spare) && b in spare && b < |d| && d[b] == ZERO_BLOCK
    ensures LinkToDir(t, b).0 < |d|
    ensures var d2 := d[LinkToDir(t, b).0 := LinkToDir(t, b).1]; var t2 := AppendedDirs(t, b);
      && SafeImage(d2) && MapOf(d2) == MapOf(d) && KeepsFiles(d, t, d2, t2)
      && Sound(d2, t2, r[b := RDir(|t.dirs|)], spare - {b})
  {
    hide Consistent, Marked, SafeImage, ZeroTail, SameBytes, LinkToDir;
    LengthFact(d, t, r);
    SpareIsFresh(d, t, r, spare, b);
    AppendDir(d, t, r, b);
    var (at, x) := LinkToDir(t, b);
    var d2 := d[at := x];
    var r2 := r[b := RDir(|t.dirs|)];
    ConsistentIsSafe(d2, AppendedDirs(t, b), r2);
    LinkDirRole(d, t, r, b);
    AllKeep(d, t, r, d2);
    assert r2.Keys == r.Keys + {b};
  }

  lemma LinkDirRole(d: seq<Block>, t: Tree, r: map<nat, Role>, b: nat)
    requires Consistent(d, t, r)
    ensures var at := LinkToDir(t, b).0; at in r && at != 1 && !r[at].RData?
  {
    hide Consistent;
    LengthFact(d, t, r);
    if t.dirs != [] {
      DirBlockFacts(d, t, r, |t.dirs| - 1);
    }
  }

  lemma NameDirSound(d: seq<Block>, t: Tree, r: map<nat, Role>, spare: set<nat>, i: nat, name: string)
    requires Sound(d, t, r, spare) && i < |t.dirs|
    ensures t.dirs[i].bid < |d|
    ensures var d2 := d[t.dirs[i].bid := DirImage(t, i, name, t.dirs[i].slots)]; var t2 := NamedDir(t, i, name);
      && SafeImage(d2) && MapOf(d2) == MapOf(d) && KeepsFiles(d, t, d2, t2) && Sound(d2, t2, r, spare)
  {
    hide Consistent, Marked, SafeImage, ZeroTail, SameBytes;
    LengthFact(d, t, r);
    DirBlockFacts(d, t, r, i);
    NameDir(d, t, r, i, name);
    var d2 := d[t.dirs[i].bid := DirImage(t, i, name, t.dirs[i].slots)];
    ConsistentIsSafe(d2, NamedDir(t, i, name), r);
    AllKeep(d, t, r, d2);
  }

  lemma AddFileSound(d: seq<Block>, t: Tree, r: map<nat, Role>, spare: set<nat>, i: nat, s: nat, b: nat)
    requires Sound(d, t, r, spare) && b in spare && b < |d| && d[b] == ZERO_BLOCK
    requires i < |t.dirs| && s < |t.dirs[i].slots| && t.dirs[i].slots[s] == 0
    ensures t.dirs[i].bid < |d| && b !in t.files
    ensures var d2 := d[t.dirs[i].bid := DirImage(t, i, t.dirs[i].name, t.dirs[i].slots[s := b])];
      var t2 := AddedFile(t, i, s, b);
      && SafeImage(d2) && MapOf(d2) == MapOf(d) && KeepsFiles(d, t, d2, t2)
      && Sound(d2, t2, r[b := RInode(t.dirs[i].bid, s)], spare - {b})
  {
    hide Consistent, Marked, SafeImage, SameBytes, At;
    LengthFact(d, t, r);
    SpareIsFresh(d, t, r, spare, b);
    DirBlockFacts(d, t, r, i);
    AddFile(d, t, r, i, s, b);
    if b in t.files {
      FileFacts(d, t, r, b);
    }
    var d2 := d[t.dirs[i].bid := DirImage(t, i, t.dirs[i].name, t.dirs[i].slots[s := b])];
    var r2 := r[b := RInode(t.dirs[i].bid, s)];
    ConsistentIsSafe(d2, AddedFile(t, i, s, b), r2);
    AllKeep(d, t, r, d2);
    assert r2.Keys == r.Keys + {b};
    EmptyFile(d2, FileNode("", 0, []));
  }

  lemma EmptyFile(d: seq<Block>, file: FileNode)
    requires file.chain == []
    ensures ZeroTail(d, file)
  {
  }

  // ---- writes to one file ----

  /** The tree changes only in file f, and none of the bytes change. */
  lemma FileSound(d: seq<Block>, t: Tree, r: map<nat, Role>, spare: set<nat>, f: nat, file: FileNode,
                  d2: seq<Block>, r2: map<nat, Role>, spare2: set<nat>)
    requires Sound(d, t, r, spare) && f in t.files && |d2| == |d|
    requires Consistent(d2, WithFile(t, f, file), r2)
    requires MapOf(d2) == MapOf(d)
    requires forall b | b in r && r[b].RData? && b < |d| :: d2[b] == d[b]
    requires r2.Keys !! spare2 && r2.Keys + spare2 == r.Keys + spare
    requires SameBytes(d2, t.files[f], d2, file) && file.size >= t.files[f].size
    ensures SafeImage(d2) && Sound(d2, WithFile(t, f, file), r2, spare2)
    ensures KeepsFiles(d, t, d2, WithFile(t, f, file))
  {
    hide Consistent, Marked, SafeImage, At;
    LengthFact(d, t, r);
    AllKeep(d, t, r, d2);
    ConsistentIsSafe(d2, WithFile(t, f, file), r2);
    assert forall b | b in spare2 :: b in r.Keys + spare;
    assert forall b :: b in r2.Keys || b in spare2 <==> b in r2.Keys + spare2;
    assert forall b :: b in r.Keys || b in spare <==> b in r.Keys + spare;
  }

  lemma SetHeaderSound(d: seq<Block>, t: Tree, r: map<nat, Role>, spare: set<nat>, f: nat, name: string, size: nat)
    requires Sound(d, t, r, spare) && f in t.files && size >= t.files[f].size
    ensures f < |d|
    ensures var file := t.files[f].(name := name, size := size); var d2 := d[f := InodeBlk(InodeOf(file))];
      && SafeImage(d2) && MapOf(d2) == MapOf(d) && KeepsFiles(d, t, d2, WithFile(t, f, file))
      && Sound(d2, WithFile(t, f, file), r, spare)
  {
    hide Consistent, Sound, KeepsFiles, SafeImage, FilePlaced, FileFits;
    SoundFacts(d, t, r, spare);
    FileFacts(d, t, r, f);
    SetHeader(d, t, r, f, name, size);
    var file := t.files[f].(name := name, size := size);
    SameChainBytes(d[f := InodeBlk(InodeOf(file))], t.files[f], file);
    FileSound(d, t, r, spare, f, file, d[f := InodeBlk(InodeOf(file))], r, spare);
  }

  lemma SameChainBytes(d: seq<Block>, a: FileNode, b: FileNode)
    requires a.chain == b.chain
    ensures SameBytes(d, a, d, b)
  {
  }

  lemma SoundFacts(d: seq<Block>, t: Tree, r: map<nat, Role>, spare: set<nat>)
    requires Sound(d, t, r, spare)
    ensures Consistent(d, t, r) && |d| == BLOCKS && 0 in r && r[0] == RSuper && 1 in r && r[1] == RFreemap
    ensures d[0] == SuperBlk(SuperOf(t)) && d[1].FreemapBlk? && |MapOf(d)| == WORDS
    ensures r.Keys !! spare && forall b | b in spare :: b < BLOCKS
  {
    hide Consistent, ZeroTail, Marked;
    LengthFact(d, t, r);
  }

  lemma LinkFrameSound(d: seq<Block>, t: Tree, r: map<nat, Role>, spare: set<nat>, f: nat, b: nat, name: string)
    requires Sound(d, t, r, spare) && f in t.files && b in spare && b < |d| && d[b] == ZERO_BLOCK
    requires t.files[f].chain != [] ==> name == t.files[f].name
    ensures LinkToFrame(t, f, b, name).0 < |d|
    ensures var d2 := d[LinkToFrame(t, f, b, name).0 := LinkToFrame(t, f, b, name).1];
      var t2 := WithFile(t, f, WithFrame(t.files[f], b).(name := name));
      && SafeImage(d2) && MapOf(d2) == MapOf(d) && KeepsFiles(d, t, d2, t2)
      && Sound(d2, t2, r[b := RFrame(f, |t.files[f].chain|)], spare - {b})
  {
    hide Consistent, Sound, KeepsFiles, SafeImage, FilePlaced, FileFits, Fresh, LinkToFrame;
    SoundFacts(d, t, r, spare);
    FileFacts(d, t, r, f);
    SpareIsFresh(d, t, r, spare, b);
    LinkFrame(d, t, r, f, b, name);
    LinkFrameRole(d, t, r, f, b, name);
    var (at, x) := LinkToFrame(t, f, b, name);
    var d2 := d[at := x];
    var file := WithFrame(t.files[f], b).(name := name);
    var r2 := r[b := RFrame(f, |t.files[f].chain|)];
    FrameBytes(d2, t.files[f], b, name);
    assert r2.Keys == r.Keys + {b};
    FileSound(d, t, r, spare, f, file, d2, r2, spare - {b});
  }

  lemma FrameBytes(d: seq<Block>, file: FileNode, b: nat, name: string)
    ensures SameBytes(d, file, d, WithFrame(file, b).(name := name))
  {
    hide At;
    SameChainBytes(d, WithFrame(file, b), WithFrame(file, b).(name := name));
    forall p: nat
      ensures At(d, WithFrame(file, b), p) == At(d, file, p)
    {
      FrameAddsNone(d, file, b, p);
    }
  }

  lemma LinkFrameRole(d: seq<Block>, t: Tree, r: map<nat, Role>, f: nat, b: nat, name: string)
    requires Consistent(d, t, r) && f in t.files
    ensures var at := LinkToFrame(t, f, b, name).0; at in r && at > 1 && !r[at].RData?
  {
    hide Consistent, FilePlaced;
    LengthFact(d, t, r);
    FileFacts(d, t, r, f);
    if t.files[f].chain != [] {
      FrameFacts(d, t, r, f, |t.files[f].chain| - 1);
    }
  }

  lemma FillFrameSound(d: seq<Block>, t: Tree, r: map<nat, Role>, spare: set<nat>, f: nat, j: nat,
                       content: seq<nat>, extra: map<nat, Role>)
    requires Sound(d, t, r, spare) && f in t.files && j < |t.files[f].chain|
    requires Fills(t.files[f].chain[j].content, content, extra, f, j)
    requires forall b | b in extra :: b in spare && b < |d| && d[b] == ZERO_BLOCK
    ensures t.files[f].chain[j].bid < |d|
    ensures var d2 := d[t.files[f].chain[j].bid := FrameBlk(FrameAt(t.files[f], j + 1), content)];
      var t2 := WithFile(t, f, WithContent(t.files[f], j, content));
      && SafeImage(d2) && MapOf(d2) == MapOf(d) && KeepsFiles(d, t, d2, t2)
      && Sound(d2, t2, r + extra, spare - extra.Keys)
  {
    hide Consistent, Sound, KeepsFiles, SafeImage, FilePlaced, FileFits, Fresh, Fills;
    SoundFacts(d, t, r, spare);
    FrameFacts(d, t, r, f, j);
    forall b | b in extra
      ensures Fresh(d, r, b)
    {
      SpareIsFresh(d, t, r, spare, b);
    }
    FillFrame(d, t, r, f, j, content, extra);
    var d2 := d[t.files[f].chain[j].bid := FrameBlk(FrameAt(t.files[f], j + 1), content)];
    var file := WithContent(t.files[f], j, content);
    FillBytes(d, d2, t.files[f], f, j, content, extra, t.files[f].chain[j].bid);
    FileSound(d, t, r, spare, f, file, d2, r + extra, spare - extra.Keys);
  }

  lemma FillBytes(d: seq<Block>, d2: seq<Block>, file: FileNode, f: nat, j: nat, content: seq<nat>,
                  extra: map<nat, Role>, at: nat)
    requires j < |file.chain| && Fills(file.chain[j].content, content, extra, f, j)
    requires at !in extra && |d2| == |d| && forall b: nat | b < |d| && b != at :: d2[b] == d[b]
    requires forall b | b in extra :: b < |d| && d[b] == ZERO_BLOCK
    ensures SameBytes(d2, file, d2, WithContent(file, j, content))
  {
    hide At, Fills;
    forall p: nat
      ensures At(d2, WithContent(file, j, content), p) == At(d2, file, p)
    {
      FillAddsNone(d2, file, f, j, content, extra, p);
    }
  }

  /** Writing a content block of file f, with zeros beyond the size of f. */
  lemma WriteDataSound(d: seq<Block>, t: Tree, r: map<nat, Role>, spare: set<nat>, f: nat, q: nat, bytes: seq<byte>)
    requires Sound(d, t, r, spare) && f in t.files && BlockOf(t.files[f], q) != 0
    requires |bytes| == BLOCK_SIZE
    requires forall o | 0 <= o < BLOCK_SIZE && q / BLOCK_SIZE * BLOCK_SIZE + o >= t.files[f].size :: bytes[o] == 0
    ensures BlockOf(t.files[f], q) < |d|
    ensures var d2 := d[BlockOf(t.files[f], q) := DataBlk(bytes)];
      && SafeImage(d2) && MapOf(d2) == MapOf(d) && Sound(d2, t, r, spare)
      && (forall p: nat :: At(d2, t.files[f], p) == if p / BLOCK_SIZE == q / BLOCK_SIZE then bytes[p % BLOCK_SIZE] else At(d, t.files[f], p))
      && (forall g | g in t.files && g != f :: SameBytes(d, t.files[g], d2, t.files[g]))
  {
    hide Consistent, Marked, SafeImage, At, BlockOf;
    LengthFact(d, t, r);
    BlockOfRole(d, t, r, f, q);
    var b := BlockOf(t.files[f], q);
    var d2 := d[b := DataBlk(bytes)];
    WriteData(d, t, r, b, bytes);
    ConsistentIsSafe(d2, t, r);
    OwnBytes(d, t, r, f, q, bytes);
    forall g | g in t.files && g != f
      ensures SameBytes(d, t.files[g], d2, t.files[g])
    {
      OtherBytes(d, t, r, f, q, bytes, g);
    }
    forall g | g in t.files
      ensures ZeroTail(d2, t.files[g])
    {
      assert ZeroTail(d, t.files[g]);
      if g == f {
        forall p: nat | p >= t.files[f].size
          ensures At(d2, t.files[f], p) == 0
        {
          if p / BLOCK_SIZE == q / BLOCK_SIZE {
            assert q / BLOCK_SIZE * BLOCK_SIZE + p % BLOCK_SIZE == p;
            assert bytes[p % BLOCK_SIZE] == 0;
          } else {
            assert At(d, t.files[f], p) == 0;
          }
        }
      }
    }
  }

  lemma OwnBytes(d: seq<Block>, t: Tree, r: map<nat, Role>, f: nat, q: nat, bytes: seq<byte>)
    requires Consistent(d, t, r) && f in t.files && BlockOf(t.files[f], q) != 0 && |bytes| == BLOCK_SIZE
    ensures BlockOf(t.files[f], q) < |d|
    ensures forall p: nat :: At(d[BlockOf(t.files[f], q) := DataBlk(bytes)], t.files[f], p) ==
                             if p / BLOCK_SIZE == q / BLOCK_SIZE then bytes[p % BLOCK_SIZE] else At(d, t.files[f], p)
  {
    hide Consistent, At, BlockOf;
    BlockOfRole(d, t, r, f, q);
    forall p: nat
      ensures At(d[BlockOf(t.files[f], q) := DataBlk(bytes)], t.files[f], p)
        == if p / BLOCK_SIZE == q / BLOCK_SIZE then bytes[p % BLOCK_SIZE] else At(d, t.files[f], p)
    {
      DataWriteBytes(d, t, r, f, q, bytes, f, p);
    }
  }

  lemma OtherBytes(d: seq<Block>, t: Tree, r: map<nat, Role>, f: nat, q: nat, bytes: seq<byte>, g: nat)
    requires Consistent(d, t, r) && f in t.files && BlockOf(t.files[f], q) != 0 && |bytes| == BLOCK_SIZE
    requires g in t.files && g != f
    ensures BlockOf(t.files[f], q) < |d|
    ensures SameBytes(d, t.files[g], d[BlockOf(t.files[f], q) := DataBlk(bytes)], t.files[g])
  {
    hide Consistent, At, BlockOf;
    BlockOfRole(d, t, r, f, q);
    forall p: nat
      ensures At(d[BlockOf(t.files[f], q) := DataBlk(bytes)], t.files[g], p) == At(d, t.files[g], p)
    {
      DataWriteBytes(d, t, r, f, q, bytes, g, p);
    }
  }

  // ---- writes that take blocks out of the tree ----

  lemma UnlinkFileSound(d: seq<Block>, t: Tree, r: map<nat, Role>, spare: set<nat>, i: nat, s: nat, f: nat)
    requires Sound(d, t, r, spare) && i < |t.dirs| && s < NINODES
    requires |t.dirs[i].slots| == NINODES && t.dirs[i].slots[s] == f && f != 0
    ensures t.dirs[i].bid < |d| && f in t.files
    ensures var d2 := d[t.dirs[i].bid := DirImage(t, i, t.dirs[i].name, t.dirs[i].slots[s := 0])];
      var t2 := RemovedFile(t, i, s, f); var r2 := Without(r, f);
      && SafeImage(d2) && MapOf(d2) == MapOf(d) && KeepsFiles(d, t2, d2, t2)
      && Sound(d2, t2, r2, spare + (r.Keys - r2.Keys))
  {
    hide Consistent, Marked, SafeImage, SameBytes, ZeroTail;
    LengthFact(d, t, r);
    DirBlockFacts(d, t, r, i);
    UnlinkFile(d, t, r, i, s, f);
    var d2 := d[t.dirs[i].bid := DirImage(t, i, t.dirs[i].name, t.dirs[i].slots[s := 0])];
    ConsistentIsSafe(d2, RemovedFile(t, i, s, f), Without(r, f));
    AllKeep(d, t, r, d2);
  }

  /** The blocks of the files in a directory, which its removal makes unreachable. */
  ghost function Orphans(r: map<nat, Role>, dir: nat): set<nat> {
    set b | b in r && b != dir && InDir(r, b, dir)
  }

  predicate AllFree(slots: seq<nat>) {
    forall s | 0 <= s < |slots| :: slots[s] == 0
  }

  /** Removing a directory loses no block exactly when none of its slots is in use. */
  lemma OrphansOfEmpty(d: seq<Block>, t: Tree, r: map<nat, Role>, i: nat)
    requires Consistent(d, t, r) && i < |t.dirs|
    ensures Orphans(r, t.dirs[i].bid) == {} <==> AllFree(t.dirs[i].slots)
    ensures AllFree(t.dirs[i].slots) ==> RemovedDir(t, r, i).files == t.files
  {
    hide Consistent, Holds;
    DirBlockFacts(d, t, r, i);
    var dir, slots := t.dirs[i].bid, t.dirs[i].slots;
    if AllFree(slots) {
      forall b | b in r
        ensures !InDir(r, b, dir)
      {
        NotInEmpty(d, t, r, i, b);
      }
      forall f | f in t.files
        ensures f in r
      {
        FileFacts(d, t, r, f);
      }
    } else {
      var s :| 0 <= s < |slots| && slots[s] != 0;
      assert slots[s] in Orphans(r, dir);
    }
  }

  lemma NotInEmpty(d: seq<Block>, t: Tree, r: map<nat, Role>, i: nat, b: nat)
    requires Consistent(d, t, r) && i < |t.dirs| && AllFree(t.dirs[i].slots) && b in r
    ensures !InDir(r, b, t.dirs[i].bid)
  {
    hide Consistent, Holds;
    DirBlockFacts(d, t, r, i);
    BlockFacts(d, t, r, b);
    match r[b]
    case RInode(p, _) =>
      if p == t.dirs[i].bid { UsedIsPositive(d, t, r, b); }
    case RFrame(g, _) => InodeNotInEmpty(d, t, r, i, g);
    case RData(g, _, _) => InodeNotInEmpty(d, t, r, i, g);
    case _ =>
  }

  lemma InodeNotInEmpty(d: seq<Block>, t: Tree, r: map<nat, Role>, i: nat, g: nat)
    requires Consistent(d, t, r) && i < |t.dirs| && AllFree(t.dirs[i].slots) && g in t.files
    ensures g in r && r[g].RInode? && r[g].dir != t.dirs[i].bid
  {
    hide Consistent, Holds, FilePlaced;
    DirBlockFacts(d, t, r, i);
    FileFacts(d, t, r, g);
    BlockFacts(d, t, r, g);
    UsedIsPositive(d, t, r, g);
  }

  /** Freeing directory i and then linking around it. The image in between is not safe. */
  lemma UnlinkDirSound(d: seq<Block>, t: Tree, r: map<nat, Role>, spare: set<nat>, i: nat)
    requires Sound(d, t, r, spare) && i < |t.dirs|
    ensures |d| == BLOCKS && t.dirs[i].bid / 32 < |MapOf(d)| && LinkPast(t, i).0 < |d|
    ensures !SafeImage(ClearedImage(d, t.dirs[i].bid))
    ensures var d2 := ClearedImage(d, t.dirs[i].bid)[LinkPast(t, i).0 := LinkPast(t, i).1];
      var t2 := RemovedDir(t, r, i);
      && SafeImage(d2) && MapOf(d2) == ClearMark(MapOf(d), t.dirs[i].bid) && KeepsFiles(d, t2, d2, t2)
      && FreeCount(MapOf(d2)) == FreeCount(MapOf(d)) + 1
      && Sound(d2, t2, WithoutDir(r, t.dirs[i].bid, i), spare + Orphans(r, t.dirs[i].bid))
  {
    hide Consistent, Marked, SafeImage, SameBytes, ZeroTail, InDir, LinkPast, FreeCount, ClearMark;
    LengthFact(d, t, r);
    DirBlockFacts(d, t, r, i);
    UnlinkDir(d, t, r, i);
    var dir := t.dirs[i].bid;
    var w := ClearedImage(d, dir);
    var (at, x) := LinkPast(t, i);
    var t2, r2 := RemovedDir(t, r, i), WithoutDir(r, dir, i);
    var d2 := w[at := x];
    MarksAfter(MapOf(d), dir);
    FreeCountUpdate(MapOf(d), dir);
    WriteMap(d[at := x], t2, r2, ClearMark(MapOf(d), dir));
    assert d[at := x][1 := FreemapBlk(ClearMark(MapOf(d), dir))] == d2;
    ConsistentIsSafe(d2, t2, r2);
    WindowUnsafe(d, t, r, i);
    LinkPastRole(d, t, r, i);
    AllKeep(d, t, r, d2);
    assert MapOf(d2) == ClearMark(MapOf(d), dir);
    var sp2 := spare + Orphans(r, dir);
    assert forall b :: b in r <==> b in r2 || b in Orphans(r, dir) || b == dir;
    assert dir !in spare;
  }

  lemma LinkPastRole(d: seq<Block>, t: Tree, r: map<nat, Role>, i: nat)
    requires Consistent(d, t, r) && i < |t.dirs|
    ensures var at := LinkPast(t, i).0; at in r && at != 1 && !r[at].RData?
  {
    hide Consistent;
    LengthFact(d, t, r);
    if i != 0 {
      DirBlockFacts(d, t, r, i - 1);
    }
  }

  /** The same links lead to the same blocks when only the freemap block has changed. */
  lemma {:induction false} MapWriteKeepsReach(d: seq<Block>, t: Tree, r: map<nat, Role>, w: seq<bv32>, q: Ref, n: nat)
    requires Consistent(d, t, r) && Reach(d, q, n)
    ensures |d| == BLOCKS && Reach(d[1 := FreemapBlk(w)], q, n)
    decreases n
  {
    hide Consistent, Pointer, Parent;
    LengthFact(d, t, r);
    if n == 0 {
      RootReached(d[1 := FreemapBlk(w)]);
    } else {
      var p: Ref, field: nat :| Reach(d, p, n - 1) && Points(d, p, field, q);
      MapWriteKeepsReach(d, t, r, w, p, n - 1);
      ReachKnown(d, t, r, p, n - 1);
      assert p.bid != 1;
      SamePointer(d, d[1 := FreemapBlk(w)], p, field);
      Onward(d[1 := FreemapBlk(w)], p, n - 1, field, q);
    }
  }

  lemma SamePointer(d: seq<Block>, d2: seq<Block>, p: Ref, field: nat)
    requires |d| == |d2| && (p.bid < |d| ==> d[p.bid] == d2[p.bid])
    ensures Pointer(d, p, field) == Pointer(d2, p, field)
  {
  }

  lemma WindowUnsafe(d: seq<Block>, t: Tree, r: map<nat, Role>, i: nat)
    requires Consistent(d, t, r) && i < |t.dirs|
    ensures |d| == BLOCKS && t.dirs[i].bid / 32 < |MapOf(d)|
    ensures !SafeImage(ClearedImage(d, t.dirs[i].bid))
  {
    hide Consistent, Reach, Marked;
    LengthFact(d, t, r);
    DirBlockFacts(d, t, r, i);
    DirReached(d, t, r, i);
    var dir := t.dirs[i].bid;
    MapWriteKeepsReach(d, t, r, ClearMark(MapOf(d), dir), Ref(KDir, dir), i + 1);
    MarksAfter(MapOf(d), dir);
    assert !Marked(MapOf(ClearedImage(d, dir)), dir);
  }
}
