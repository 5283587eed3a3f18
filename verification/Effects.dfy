/** What the steps of the operations do to trees, chains, roles and contents. */
module Effects {
  import opened Bits
  import opened ByteFile
  import opened Chains
  import opened Contents
  import opened Copying
  import opened Layout
  import opened Lookup
  import opened Paths
  import opened Reachability
  import opened Steps
  import opened Store
  import opened Unlinks

  /** The second list of disk images continues the first one with safe images. */
  ghost predicate LogGrows(a: seq<seq<Block>>, b: seq<seq<Block>>) {
    a <= b && forall i | |a| <= i < |b| :: SafeImage(b[i])
  }

  lemma LogGrowsOne(a: seq<seq<Block>>, b: seq<seq<Block>>, d: seq<Block>)
    requires LogGrows(a, b) && SafeImage(d)
    ensures LogGrows(a, b + [d])
  {
    hide SafeImage;
  }

  lemma NoLog(a: seq<seq<Block>>)
    ensures LogGrows(a, a)
  {
  }

  /** Before a round: frame j of the current file is the old one, and its missing entries are among those still due. */
  lemma NextFill(a: FileNode, b: FileNode, j: nat, k0: nat, start: nat, m: nat, remaining: nat)
    requires Filled(a, b, start, m) && j < |a.chain| && FRAME_COUNT * j + k0 == start + m && k0 < FRAME_COUNT
    ensures |b.chain| == |a.chain| && b.chain[j].bid == a.chain[j].bid
    ensures forall k: nat :: FrameAt(b, k) == FrameAt(a, k)
    ensures var n := Min(remaining, FRAME_COUNT - k0);
      && Missing(b, FRAME_COUNT * j + k0, n) == Missing(a, start + m, n)
      && Missing(a, start, m) + Missing(a, start + m, n) <= Missing(a, start, m + remaining)
  {
    hide Entry, Missing;
    var n := Min(remaining, FRAME_COUNT - k0);
    MissingSame(b, a, start + m, n);
    MissingSplit(a, start, m, remaining);
    MissingSplit(a, start + m, n, remaining - n);
  }

  /** Two fillings, one behind the other, are one filling. */
  lemma FilledTrans(a: FileNode, b: FileNode, c: FileNode, start: nat, m: nat, n: nat)
    requires Filled(a, b, start, m) && Filled(b, c, start + m, n)
    ensures Filled(a, c, start, m + n)
    ensures forall k: nat | start <= k < start + m && Entry(b, k) != 0 :: Entry(c, k) == Entry(b, k)
  {
    hide Entry;
    forall k: nat | start <= k < start + m && Entry(b, k) != 0
      ensures Entry(c, k) == Entry(b, k)
    {
      EntryInChain(b, k);
    }
  }

  lemma EntryInChain(a: FileNode, k: nat)
    requires Entry(a, k) != 0
    ensures k / FRAME_COUNT < |a.chain|
  {
  }

  /** After a round: either all ids are there, or the chain goes on with a whole frame, or it ends. */
  lemma AfterFill(a: FileNode, j: nat, k0: nat, start: nat, m: nat, n: nat, total: nat)
    requires j < |a.chain| && FRAME_COUNT * j + k0 == start + m && k0 < FRAME_COUNT
    requires m <= total && n == Min(total - m, FRAME_COUNT - k0)
    ensures m + n == total ==> InChain(a, start, total) == total
    ensures m + n < total ==> FRAME_COUNT * (j + 1) == start + m + n
    ensures m + n < total && j + 1 == |a.chain| ==> InChain(a, start, total) == m + n
  {
  }

  /** b is a with one more frame, with the given block and no unset entries. */
  ghost predicate OneMoreFrame(a: FileNode, b: FileNode, bid: nat) {
    && b.name == a.name && b.size == a.size
    && |b.chain| == |a.chain| + 1 && b.chain[..|a.chain|] == a.chain
    && b.chain[|a.chain|].bid == bid && |b.chain[|a.chain|].content| == FRAME_COUNT
    && forall k | 0 <= k < FRAME_COUNT :: b.chain[|a.chain|].content[k] != 0
  }

  /** b is a with frames without unset entries behind its chain, n frames in all. */
  ghost predicate GrownBy(a: FileNode, b: FileNode, n: nat) {
    && b.name == a.name && b.size == a.size && FullRows(b)
    && a.chain <= b.chain && |b.chain| == n
    && forall j, k | |a.chain| <= j < |b.chain| && 0 <= k < FRAME_COUNT :: b.chain[j].content[k] != 0
  }

  lemma GrownNone(t: Tree, r: map<nat, Role>, d: seq<Block>, f: nat)
    requires f in t.files && FullRows(t.files[f])
    ensures GrownBy(t.files[f], t.files[f], |t.files[f].chain|)
  {
  }

  lemma GrownMore(a: FileNode, b: FileNode, c: FileNode, bid: nat, n: nat)
    requires GrownBy(a, b, n) && OneMoreFrame(b, c, bid)
    ensures GrownBy(a, c, n + 1) && c.chain[n].bid == bid
  {
    assert forall j | 0 <= j < n :: c.chain[j] == c.chain[..n][j];
  }

  lemma GrownSize(a: FileNode, b: FileNode, size: nat, n: nat)
    requires GrownBy(a, b, n) && n == Max(|a.chain|, FrameCount(size))
    ensures Grown(a, b.(size := size), size)
  {
    hide FrameCount;
  }

  lemma FrameCounts(size: nat, newSize: nat)
    requires size < newSize
    ensures var a := (size + BLOCK_SIZE * FRAME_COUNT - 1) / (BLOCK_SIZE * FRAME_COUNT);
      FrameCount(size) == if a == 0 then 1 else a
    ensures FrameCount(newSize) == (newSize + BLOCK_SIZE * FRAME_COUNT - 1) / (BLOCK_SIZE * FRAME_COUNT)
    ensures 1 <= FrameCount(size) <= FrameCount(newSize)
  {
  }

  lemma OneRole(r: map<nat, Role>, f: nat, b: nat, j: nat)
    requires b !in r
    ensures RolesGrow(r, r[b := RFrame(f, j)], f)
  {
  }

  lemma LinkOfFile(t: Tree, f: nat, b: nat, name: string)
    requires f in t.files && t.files[f].chain != []
    ensures var last := t.files[f].chain[|t.files[f].chain| - 1];
      LinkToFrame(t, f, b, name) == (last.bid, FrameBlk(b, last.content))
  {
  }

  lemma NewFrameMissing(file: FileNode, n: nat)
    requires |file.chain| == n + 1 && file.chain[n].content == Zeros(FRAME_COUNT)
    ensures Missing(file, FRAME_COUNT * n, FRAME_COUNT) == FRAME_COUNT
  {
    hide Missing;
    AllMissing(file, n, 0, FRAME_COUNT);
  }

  lemma {:induction false} AllMissing(file: FileNode, n: nat, from: nat, m: nat)
    requires n < |file.chain| && file.chain[n].content == Zeros(FRAME_COUNT) && from + m == FRAME_COUNT
    ensures Missing(file, FRAME_COUNT * n + from, m) == m
    decreases m
  {
    if m != 0 {
      EntryAt(file, n, from);
      AllMissing(file, n, from + 1, m - 1);
    }
  }

  lemma NewFrameFilled(a: FileNode, bid: nat, c: FileNode)
    requires FullRows(a)
    requires Filled(WithFrame(a, bid).(name := a.name), c, FRAME_COUNT * |a.chain| + 0, FRAME_COUNT)
    ensures OneMoreFrame(a, c, bid)
  {
    hide Entry;
    var n, b := |a.chain|, WithFrame(a, bid).(name := a.name);
    forall k | 0 <= k < FRAME_COUNT
      ensures c.chain[n].content[k] != 0
    {
      EntryAt(c, n, k);
      assert Entry(c, FRAME_COUNT * n + k) != 0;
    }
    forall j | 0 <= j < n
      ensures c.chain[j] == a.chain[j]
    {
      forall k | 0 <= k < FRAME_COUNT
        ensures c.chain[j].content[k] == a.chain[j].content[k]
      {
        EntryAt(c, j, k);
        EntryAt(b, j, k);
        assert FRAME_COUNT * j + k < FRAME_COUNT * n;
        assert Entry(c, FRAME_COUNT * j + k) == Entry(b, FRAME_COUNT * j + k);
      }
      assert c.chain[j].bid == b.chain[j].bid;
    }
  }

  ghost predicate RolesAreOfFiles(t: Tree, r: map<nat, Role>) {
    forall b, f | b in r && OfFile(r[b], f) :: f in t.files
  }

  lemma SlotsKnown(d: seq<Block>, t: Tree, r: map<nat, Role>)
    requires Consistent(d, t, r)
    ensures SlotsAreFiles(t)
  {
    hide Consistent, AsDir;
    forall i | 0 <= i < |t.dirs|
      ensures |t.dirs[i].slots| == NINODES && SlotsIn(t.dirs[i].slots, t.files.Keys)
    {
      DirBlockFacts(d, t, r, i);
    }
  }

  lemma RolesKnown(d: seq<Block>, t: Tree, r: map<nat, Role>)
    requires Consistent(d, t, r)
    ensures RolesAreOfFiles(t, r)
  {
    hide Consistent, Holds;
    forall b, f | b in r && OfFile(r[b], f)
      ensures f in t.files
    {
      BlockFacts(d, t, r, b);
    }
  }

  ghost predicate FirstFilled(t: Tree, t2: Tree, f: nat, frameBid: nat)
    requires f in t2.files
  {
    && f in t.files && t2 == WithFile(t, f, t2.files[f])
    && t2.files[f].name == t.files[f].name && t2.files[f].size == t.files[f].size
    && |t2.files[f].chain| == 1 && t2.files[f].chain[0].bid == frameBid && |t2.files[f].chain[0].content| == FRAME_COUNT
    && forall k | 0 <= k < FRAME_COUNT :: t2.files[f].chain[0].content[k] != 0 <==> k == 0
  }

  lemma FirstLink(t: Tree, f: nat, b: nat, name: string)
    requires f in t.files && t.files[f] == FileNode("", 0, [])
    ensures LinkToFrame(t, f, b, name) == (f, InodeBlk(InodeRec(0, b, name)))
  {
  }

  lemma CreatedAll(t0: Tree, t1: Tree, t3: Tree, t: Tree, i: nat, s: nat, f: nat, frameBid: nat, name: string)
    requires i < |t0.dirs| && s < |t0.dirs[i].slots| && t0.dirs[i].slots[s] == 0 && f !in t0.files && f != 0
    requires t1 == AddedFile(t0, i, s, f)
    requires t3 == WithFile(t1, f, WithFrame(t1.files[f], frameBid).(name := name))
    requires f in t.files && FirstFilled(t3, t, f, frameBid)
    ensures Created(t0, t, i, s, f, name)
    ensures InodeOf(t.files[f]) == InodeRec(0, frameBid, name)
    ensures SuperOf(t) == SuperOf(t0)
  {
    assert t.files == t0.files[f := t.files[f]];
  }

  lemma FileOfSlots(t: Tree, dir: string, name: string)
    requires HasDir(t, dir)
    ensures var slots := t.dirs[FindDir(t, dir)].slots; var s := SlotIndex(t, slots, name, 0);
      && FileOf(t, dir, name) == (if s == |slots| then 0 else slots[s])
      && (s < |slots| ==> slots[s] != 0)
  {
  }

  lemma CreatedNames(t: Tree, t2: Tree, i: nat, s: nat, f: nat, dir: string, name: string)
    requires Named(t) && Sized(t) && SlotsAreFiles(t) && Created(t, t2, i, s, f, name) && f != 0
    requires HasDir(t, dir) && i == FindDir(t, dir) && FileOf(t, dir, name) == 0
    ensures Named(t2) && Sized(t2)
    ensures FileOf(t2, dir, name) == f && HasDir(t2, dir) && DirAt(t2, i) == DirAt(t, i)
  {
    SameDirNames(t, t2, dir, 0);
    forall k | 0 <= k < |t2.dirs|
      ensures NamedSlots(t2, t2.dirs[k].slots)
    {
      assert NamedSlots(t, t.dirs[k].slots);
      CreatedSlots(t, t2, i, s, f, name, k);
    }
    CreatedFound(t, t2, i, s, f, name, 0);
  }

  lemma SameDirNames(t: Tree, t2: Tree, dir: string, i: nat)
    requires |t2.dirs| == |t.dirs| && i <= |t.dirs|
    requires forall k | 0 <= k < |t.dirs| :: t2.dirs[k].name == t.dirs[k].name
    ensures DirIndex(t2, dir, i) == DirIndex(t, dir, i)
    decreases |t.dirs| - i
  {
    if i < |t.dirs| {
      SameDirNames(t, t2, dir, i + 1);
    }
  }

  lemma CreatedSlots(t: Tree, t2: Tree, i: nat, s: nat, f: nat, name: string, k: nat)
    requires SlotsAreFiles(t) && Created(t, t2, i, s, f, name) && k < |t.dirs| && NamedSlots(t, t.dirs[k].slots)
    requires k == i ==> SlotIndex(t, t.dirs[i].slots, name, 0) == |t.dirs[i].slots|
    ensures NamedSlots(t2, t2.dirs[k].slots)
  {
    var slots, slots2 := t.dirs[k].slots, t2.dirs[k].slots;
    forall a, b | 0 <= a < b < |slots2| && slots2[a] in t2.files && slots2[b] in t2.files && slots2[a] != 0 && slots2[b] != 0
      ensures t2.files[slots2[a]].name != t2.files[slots2[b]].name
    {
      if k == i && (a == s || b == s) {
        var c := if a == s then b else a;
        assert slots2[c] == slots[c] && !IsFile(t, slots[c], name);
      } else {
        assert slots2[a] == slots[a] && slots2[b] == slots[b];
      }
    }
  }

  lemma CreatedFound(t: Tree, t2: Tree, i: nat, s: nat, f: nat, name: string, k: nat)
    requires SlotsAreFiles(t) && Created(t, t2, i, s, f, name) && k <= s && f != 0
    requires SlotIndex(t, t.dirs[i].slots, name, k) == |t.dirs[i].slots|
    ensures SlotIndex(t2, t2.dirs[i].slots, name, k) == s
    decreases s - k
  {
    if k < s {
      CreatedFound(t, t2, i, s, f, name, k + 1);
    }
  }

  lemma CreatedRoles(t: Tree, r: map<nat, Role>, r2: map<nat, Role>, f: nat, role: Role)
    requires f !in r && f !in t.files && RolesAreOfFiles(t, r) && RolesGrow(r[f := role], r2, f)
    ensures Without(r2, f) == r
  {
    var w := Without(r2, f);
    assert forall b | b in r :: b in r[f := role];
    assert forall b | b in w :: b in r;
  }

  lemma CreatedContents(d: seq<Block>, t: Tree, d2: seq<Block>, t2: Tree, i: nat, s: nat, f: nat, name: string)
    requires Created(t, t2, i, s, f, name) && KeepsFiles(d, t, d2, t2)
    ensures FilesOf(d2, t2) == FilesOf(d, t)[f := []]
  {
    hide At;
    forall g | g in t.files
      ensures Bytes(d2, t2.files[g]) == Bytes(d, t.files[g])
    {
      SameFileBytes(d, t.files[g], d2, t2.files[g]);
    }
    assert Bytes(d2, t2.files[f]) == [];
  }

  /** An image with the tree it holds. */
  datatype Image = Image(d: seq<Block>, t: Tree, r: map<nat, Role>)

  /** The inode of f, and its frames and content blocks from entry k of frame j on. */
  ghost function Rest(r: map<nat, Role>, f: nat, j: nat, k: nat): set<nat> {
    set b | b in r && (b == f || FromEntry(r[b], f, j, k))
  }

  predicate FromEntry(role: Role, f: nat, j: nat, k: nat) {
    match role
    case RFrame(g, h) => g == f && h >= j
    case RData(g, h, m) => g == f && (h > j || (h == j && m >= k))
    case _ => false
  }

  predicate InDirectory(r: map<nat, Role>, f: nat, dir: nat) {
    f in r && r[f].RInode? && r[f].dir == dir
  }

  /** t2 is t with a new file f in the first free slot of the directory, and its blocks are all that is new. */
  ghost predicate CreatedIn(t: Tree, r: map<nat, Role>, t2: Tree, r2: map<nat, Role>, f: nat, dirname: string, name: string) {
    && Created(t, t2, FindDir(t, dirname), FirstFree(t, dirname), f, name)
    && Without(r2, f) == r
    && f in r2 && r2[f].RInode? && r2[f].slot == FirstFree(t, dirname)
  }

  /** t2 is t without file f, which was where its role says. */
  ghost predicate RemovedFrom(t: Tree, r: map<nat, Role>, t2: Tree, f: nat) {
    && f in r && r[f].RInode? && r[f].dir in r && r[r[f].dir].RDir?
    && var i := r[r[f].dir].idx;
      && i < |t.dirs| && r[f].slot < |t.dirs[i].slots| && t.dirs[i].slots[r[f].slot] == f
      && t2 == RemovedFile(t, i, r[f].slot, f)
  }

  lemma RestAll(was: Image, f: nat, kept: set<nat>)
    ensures was.r.Keys - Without(was.r, f).Keys == Rest(was.r, f, 0, 0)
  {
  }

  lemma RestData(was: Image, f: nat, j: nat, k: nat)
    requires Consistent(was.d, was.t, was.r) && f in was.t.files && j < |was.t.files[f].chain| && k < FRAME_COUNT
    ensures |was.t.files[f].chain[j].content| == FRAME_COUNT
    ensures var b := was.t.files[f].chain[j].content[k];
      && (b == 0 ==> Rest(was.r, f, j, k + 1) == Rest(was.r, f, j, k))
      && (b != 0 ==> b in Rest(was.r, f, j, k) && b < BLOCKS && Rest(was.r, f, j, k + 1) == Rest(was.r, f, j, k) - {b})
  {
    hide Consistent, Holds;
    DataFacts(was.d, was.t, was.r, f, j, k);
    FileFacts(was.d, was.t, was.r, f);
    UniqueData(was, f, j, k);
  }

  lemma UniqueData(was: Image, f: nat, j: nat, k: nat)
    requires Consistent(was.d, was.t, was.r) && f in was.t.files && j < |was.t.files[f].chain| && k < FRAME_COUNT
    ensures |was.t.files[f].chain[j].content| == FRAME_COUNT
    ensures forall c | c in was.r && was.r[c] == RData(f, j, k) :: c == was.t.files[f].chain[j].content[k] && c != 0
  {
    hide Consistent, Holds;
    DataFacts(was.d, was.t, was.r, f, j, k);
    forall c | c in was.r && was.r[c] == RData(f, j, k)
      ensures c == was.t.files[f].chain[j].content[k] && c != 0
    {
      BlockFacts(was.d, was.t, was.r, c);
      UsedIsPositive(was.d, was.t, was.r, c);
    }
  }

  lemma RestFrame(was: Image, f: nat, j: nat)
    requires Consistent(was.d, was.t, was.r) && f in was.t.files && j < |was.t.files[f].chain|
    ensures var b := was.t.files[f].chain[j].bid;
      b in Rest(was.r, f, j, FRAME_COUNT) && b < BLOCKS && Rest(was.r, f, j + 1, 0) == Rest(was.r, f, j, FRAME_COUNT) - {b}
  {
    hide Consistent, Holds;
    FrameFacts(was.d, was.t, was.r, f, j);
    forall c | c in was.r && OfFile(was.r[c], f)
      ensures was.r[c] == RFrame(f, j) ==> c == was.t.files[f].chain[j].bid
      ensures was.r[c].RData? && was.r[c].frame == j ==> was.r[c].pos < FRAME_COUNT
    {
      BlockFacts(was.d, was.t, was.r, c);
    }
  }

  lemma RestNone(was: Image, f: nat)
    requires Consistent(was.d, was.t, was.r) && f in was.t.files
    ensures Rest(was.r, f, |was.t.files[f].chain|, 0) == {f}
  {
    hide Consistent, Holds;
    FileFacts(was.d, was.t, was.r, f);
    forall c | c in was.r && OfFile(was.r[c], f)
      ensures !FromEntry(was.r[c], f, |was.t.files[f].chain|, 0)
    {
      BlockFacts(was.d, was.t, was.r, c);
    }
  }

  lemma LastFrames(was: Image, f: nat, j: nat)
    requires Consistent(was.d, was.t, was.r) && f in was.t.files
    ensures FrameAt(was.t.files[f], j) != 0 <==> j < |was.t.files[f].chain|
  {
    hide Consistent;
    if j < |was.t.files[f].chain| {
      FrameFacts(was.d, was.t, was.r, f, j);
    }
  }

  lemma RemovedNames(t: Tree, i: nat, s: nat, f: nat)
    requires Named(t) && Sized(t) && i < |t.dirs| && s < |t.dirs[i].slots|
    ensures Named(RemovedFile(t, i, s, f)) && Sized(RemovedFile(t, i, s, f))
    ensures SuperOf(RemovedFile(t, i, s, f)) == SuperOf(t)
  {
    var t2 := RemovedFile(t, i, s, f);
    forall k | 0 <= k < |t2.dirs|
      ensures NamedSlots(t2, t2.dirs[k].slots)
    {
      assert NamedSlots(t, t.dirs[k].slots);
    }
  }

  lemma RemovedContents(d: seq<Block>, t: Tree, d2: seq<Block>, i: nat, s: nat, f: nat)
    requires i < |t.dirs| && s < |t.dirs[i].slots| && f in t.files
    requires KeepsFiles(d, RemovedFile(t, i, s, f), d2, RemovedFile(t, i, s, f))
    ensures FilesOf(d2, RemovedFile(t, i, s, f)) == FilesOf(d, t) - {f}
  {
    hide At;
    var t2 := RemovedFile(t, i, s, f);
    forall g | g in t2.files
      ensures Bytes(d2, t2.files[g]) == Bytes(d, t.files[g])
    {
      SameFileBytes(d, t2.files[g], d2, t2.files[g]);
    }
  }

  /** How many free blocks a read of length bytes at cur takes: a read, too, fills unset entries. */
  function ReadNeeds(file: FileNode, cur: nat, length: nat): int {
    var n := ReadLength(file.size, cur, length);
    Missing(file, cur / BLOCK_SIZE, (cur + n) / BLOCK_SIZE - cur / BLOCK_SIZE + 1)
  }

  lemma ReadKeeps(a: FileNode, b: FileNode, start: nat, n: nat, total: nat)
    requires |a.chain| == FrameCount(a.size) && Filled(a, b, start, n)
    ensures Reserved(a, b, 0, 0) && InChain(a, start, total) == InChain(b, start, total)
    ensures a.size <= FRAME_BYTES * |a.chain| && |b.chain| == |a.chain| && b.name == a.name && b.size == a.size
  {
    FrameCountMonotone(a.size, a.size);
    forall k: nat | Entry(a, k) != 0
      ensures Entry(b, k) == Entry(a, k)
    {
      EntryInChain(a, k);
    }
  }

  lemma ReadNames(t0: Tree, t: Tree, f: nat)
    requires f in t0.files && f in t.files && t == WithFile(t0, f, t.files[f])
    requires t.files[f].name == t0.files[f].name && |t.files[f].chain| == |t0.files[f].chain| && t.files[f].size == t0.files[f].size
    requires Named(t0) && Sized(t0)
    ensures Named(t) && Sized(t) && SuperOf(t) == SuperOf(t0)
    ensures t.files.Keys == t0.files.Keys && forall g | g in t0.files :: t.files[g].size == t0.files[g].size
  {
    hide FrameCount;
    WriteNames(t0, t, f);
  }

  lemma KeepsOne(d: seq<Block>, t: Tree, d2: seq<Block>, t2: Tree, f: nat)
    requires KeepsFiles(d, t, d2, t2) && f in t.files
    ensures f in t2.files && SameBytes(d, t.files[f], d2, t2.files[f])
  {
  }

  lemma ReadIsBytes(d0: seq<Block>, t0: Tree, d: seq<Block>, t: Tree, f: nat, cur: nat, length: nat, got: seq<byte>)
    requires f in t0.files && f in t.files && t.files[f].size == t0.files[f].size && SameBytes(d0, t0.files[f], d, t.files[f])
    requires |got| == ReadLength(t0.files[f].size, cur, length)
    requires forall i | 0 <= i < |got| :: got[i] == At(d, t.files[f], cur + i)
    ensures got == ReadAt(Bytes(d0, t0.files[f]), cur, length)
  {
    hide At;
  }

  /** b is a with room for length bytes at cur: the old frames first, and as many as the new size calls for. */
  ghost predicate Reserved(a: FileNode, b: FileNode, cur: nat, length: nat) {
    && b.name == a.name && b.size == Max(a.size, cur + length)
    && |b.chain| == FrameCount(b.size) && |a.chain| <= |b.chain|
    && (forall j | 0 <= j < |a.chain| :: b.chain[j].bid == a.chain[j].bid)
    && (forall k: nat | Entry(a, k) != 0 :: Entry(b, k) == Entry(a, k))
  }

  /** Of the old frames' entries only those from number `from` to number `to` have changed. */
  ghost predicate OnlyIn(a: FileNode, b: FileNode, from: nat, to: nat) {
    forall k: nat | k / FRAME_COUNT < |a.chain| && !(from <= k <= to) :: Entry(b, k) == Entry(a, k)
  }

  lemma OnlyInFilled(a: FileNode, b: FileNode, c: FileNode, from: nat, n: nat, to: nat)
    requires a.chain <= b.chain && Filled(b, c, from, n) && from + n <= to + 1
    ensures OnlyIn(a, c, from, to)
  {
    forall k: nat | k / FRAME_COUNT < |a.chain| && !(from <= k <= to)
      ensures Entry(c, k) == Entry(a, k)
    {
      assert b.chain[k / FRAME_COUNT] == a.chain[k / FRAME_COUNT];
    }
  }

  lemma InChainAtMost(a: FileNode, from: nat, n: nat)
    ensures InChain(a, from, n) <= n
  {
  }

  lemma GrownPrefix(a: FileNode, b: FileNode, size: nat)
    requires Grown(a, b, size)
    ensures a.chain <= b.chain
  {
  }

  lemma ReservedBy(a: FileNode, b: FileNode, c: FileNode, cur: nat, length: nat, start: nat, n: nat, total: nat)
    requires |a.chain| == FrameCount(a.size)
    requires if cur + length > a.size then Grown(a, b, cur + length) else b == a
    requires Filled(b, c, start, n) && start == cur / BLOCK_SIZE && n == InChain(b, start, total)
    requires total == (cur + length) / BLOCK_SIZE - cur / BLOCK_SIZE + 1
    ensures Reserved(a, c, cur, length)
    ensures Taken(c) == Taken(a) + WriteNeeds(a, cur, length)
    ensures InChain(b, start, total) == InChain(c, start, total)
  {
    ReservedTakes(a, b, c, cur, length, start, n, total);
    FrameCountMonotone(a.size, cur + length);
    forall k: nat | Entry(a, k) != 0
      ensures Entry(c, k) == Entry(a, k)
    {
      var j := k / FRAME_COUNT;
      assert b.chain[j] == a.chain[j];
    }
    forall j | 0 <= j < |a.chain|
      ensures c.chain[j].bid == a.chain[j].bid
    {
      assert b.chain[j] == a.chain[j];
    }
  }

  lemma ReservedTakes(a: FileNode, b: FileNode, c: FileNode, cur: nat, length: nat, start: nat, n: nat, total: nat)
    requires |a.chain| == FrameCount(a.size)
    requires if cur + length > a.size then Grown(a, b, cur + length) else b == a
    requires Filled(b, c, start, n) && start == cur / BLOCK_SIZE && n == InChain(b, start, total)
    requires total == (cur + length) / BLOCK_SIZE - cur / BLOCK_SIZE + 1
    ensures Taken(c) == Taken(a) + WriteNeeds(a, cur, length)
  {
    hide Missing, FrameCount, Grown, Filled;
    MissingInChain(b, start, total);
    FillingTakes(b, c, start, n);
    if cur + length > a.size {
      GrowthTakes(a, b, cur + length);
      GrownChain(a, b, cur + length);
      MissingGrown(a, b, cur + length, start, total);
    } else {
      FrameCountMonotone(cur + length, a.size);
    }
  }

  lemma FrameCountMonotone(a: nat, b: nat)
    ensures a <= b ==> FrameCount(a) <= FrameCount(b)
    ensures a <= FRAME_BYTES * FrameCount(a)
    ensures FrameCount(a) >= 1
  {
  }

  lemma ChainNotEmpty(file: FileNode)
    requires |file.chain| == FrameCount(file.size)
    ensures file.chain != []
  {
  }

  lemma GrowthIsNeeded(size: nat, newSize: nat)
    ensures newSize <= size ==> FrameCount(newSize) <= FrameCount(size)
    ensures newSize >= size ==> Max(FrameCount(size), FrameCount(newSize)) == FrameCount(newSize)
  {
    FrameCountMonotone(newSize, size);
    FrameCountMonotone(size, newSize);
  }

  lemma ReservedSize(a: FileNode, b: FileNode, cur: nat, length: nat)
    requires Reserved(a, b, cur, length)
    ensures cur + length <= b.size <= FRAME_BYTES * |b.chain|
    ensures b.size == Max(a.size, cur + length) && b.name == a.name && |b.chain| == FrameCount(b.size)
  {
    hide FrameCount;
    FrameCountMonotone(b.size, b.size);
  }

  lemma ChainIsSized(t: Tree, f: nat)
    requires Sized(t) && f in t.files
    ensures |t.files[f].chain| == FrameCount(t.files[f].size)
  {
  }

  /** The block of a byte that is to be copied is among the collected ones. */
  lemma BidIsThere(file: FileNode, cur0: nat, cur: nat, length: nat)
    requires cur0 <= cur < cur0 + length <= file.size <= FRAME_BYTES * |file.chain|
    ensures 0 <= cur / BLOCK_SIZE - cur0 / BLOCK_SIZE
         < InChain(file, cur0 / BLOCK_SIZE, (cur0 + length) / BLOCK_SIZE - cur0 / BLOCK_SIZE + 1)
  {
  }

  lemma NextChunk(cur: nat, n: nat, remaining: nat)
    requires n == Min(remaining, BLOCK_SIZE - cur % BLOCK_SIZE) && n > 0
    ensures n < remaining ==> (cur + n) % BLOCK_SIZE == 0 && (cur + n) / BLOCK_SIZE == cur / BLOCK_SIZE + 1
  {
  }

  lemma AllSame(d: seq<Block>, t: Tree)
    ensures forall g | g in t.files :: SameBytes(d, t.files[g], d, t.files[g])
  {
    hide At;
  }

  lemma SameTrans(d: seq<Block>, d1: seq<Block>, d2: seq<Block>, t: Tree, f: nat)
    requires forall g | g in t.files && g != f :: SameBytes(d, t.files[g], d1, t.files[g])
    requires forall g | g in t.files && g != f :: SameBytes(d1, t.files[g], d2, t.files[g])
    ensures forall g | g in t.files && g != f :: SameBytes(d, t.files[g], d2, t.files[g])
  {
    hide At;
  }

  /** Reserving keeps all bytes and copying patches one file, so the contents of that file are overwritten. */
  lemma WriteContents(d0: seq<Block>, t0: Tree, d1: seq<Block>, d2: seq<Block>, t: Tree, f: nat, cur: nat, buf: seq<byte>)
    requires f in t0.files && f in t.files && t == WithFile(t0, f, t.files[f])
    requires KeepsFiles(d0, t0, d1, t) && ZeroTail(d0, t0.files[f])
    requires Patch(d1, d2, t.files[f], cur, buf)
    requires forall g | g in t.files && g != f :: SameBytes(d1, t.files[g], d2, t.files[g])
    requires t.files[f].size == Max(t0.files[f].size, cur + |buf|)
    ensures FilesOf(d2, t) == FilesOf(d0, t0)[f := Overwrite(Bytes(d0, t0.files[f]), cur, buf)]
  {
    hide At, Patch, SameBytes, ZeroTail;
    PatchIsOverwrite(d0, t0.files[f], d1, d2, t.files[f], cur, buf);
    forall g | g in t0.files && g != f
      ensures Bytes(d2, t.files[g]) == Bytes(d0, t0.files[g])
    {
      SameFileBytes(d0, t0.files[g], d1, t.files[g]);
      SameFileBytes(d1, t.files[g], d2, t.files[g]);
    }
  }

  lemma WriteNames(t0: Tree, t: Tree, f: nat)
    requires f in t0.files && f in t.files && t == WithFile(t0, f, t.files[f])
    requires t.files[f].name == t0.files[f].name && |t.files[f].chain| == FrameCount(t.files[f].size)
    requires Named(t0) && Sized(t0)
    ensures Named(t) && Sized(t) && SuperOf(t) == SuperOf(t0)
  {
    hide FrameCount;
    forall i | 0 <= i < |t.dirs|
      ensures NamedSlots(t, t.dirs[i].slots)
    {
      assert NamedSlots(t0, t0.dirs[i].slots);
    }
  }

  lemma RowsAreFull(d: seq<Block>, t: Tree, r: map<nat, Role>, f: nat)
    requires Consistent(d, t, r) && f in t.files
    ensures FullRows(t.files[f])
  {
    hide Consistent;
    FileFacts(d, t, r, f);
    forall j | 0 <= j < |t.files[f].chain|
      ensures |t.files[f].chain[j].content| == FRAME_COUNT
    {
      FrameFacts(d, t, r, f, j);
    }
  }

  lemma FilledOne(a: FileNode, j: nat, content: seq<nat>, k0: nat, n: nat)
    requires j < |a.chain| && FullRows(a) && |content| == FRAME_COUNT && k0 + n <= FRAME_COUNT
    requires forall h | 0 <= h < FRAME_COUNT && !(k0 <= h < k0 + n) :: content[h] == a.chain[j].content[h]
    requires forall h | k0 <= h < k0 + n :: content[h] != 0 && (a.chain[j].content[h] != 0 ==> content[h] == a.chain[j].content[h])
    ensures Filled(a, WithContent(a, j, content), FRAME_COUNT * j + k0, n)
  {
    var b := WithContent(a, j, content);
    forall k: nat | k / FRAME_COUNT < |a.chain|
      ensures if FRAME_COUNT * j + k0 <= k < FRAME_COUNT * j + k0 + n
              then Entry(b, k) != 0 && (Entry(a, k) != 0 ==> Entry(b, k) == Entry(a, k))
              else Entry(b, k) == Entry(a, k)
    {
      assert k == FRAME_COUNT * (k / FRAME_COUNT) + k % FRAME_COUNT;
      if k / FRAME_COUNT == j {
        assert Entry(b, k) == content[k % FRAME_COUNT];
      }
    }
  }

  lemma FilledRoles(r: map<nat, Role>, extra: map<nat, Role>, f: nat, j: nat, before: seq<nat>, content: seq<nat>)
    requires Fills(before, content, extra, f, j) && r.Keys !! extra.Keys
    ensures RolesGrow(r, r + extra, f)
  {
  }

  /** The loop of GatherEntries has dealt with the entries from k0 up to k. */
  ghost predicate Gathered(c0: seq<nat>, k0: nat, k: nat, content: seq<nat>, ids: seq<nat>, extra: map<nat, Role>,
                           f: nat, j: nat, r: map<nat, Role>, spare: set<nat>) {
    && Fills(c0, content, extra, f, j)
    && k0 <= k <= FRAME_COUNT && |ids| == k - k0
    && (forall i | 0 <= i < |ids| :: ids[i] == content[k0 + i] && ids[i] != 0)
    && (forall h | 0 <= h < FRAME_COUNT && !(k0 <= h < k) :: content[h] == c0[h])
    && (forall h | 0 <= h < FRAME_COUNT :: content[h] == 0 || content[h] in r || content[h] in extra)
    && spare !! extra.Keys && r.Keys !! extra.Keys && 0 !in extra
  }

  lemma GatheredNone(c: seq<nat>, k0: nat, f: nat, j: nat, r: map<nat, Role>, spare: set<nat>)
    requires |c| == FRAME_COUNT && k0 <= FRAME_COUNT
    requires forall h | 0 <= h < FRAME_COUNT :: c[h] == 0 || c[h] in r
    ensures Gathered(c, k0, k0, c, [], map[], f, j, r, spare)
  {
  }

  lemma GatheredStep(c0: seq<nat>, k0: nat, k: nat, content: seq<nat>, ids: seq<nat>, extra: map<nat, Role>,
                     f: nat, j: nat, r: map<nat, Role>, spare: set<nat>)
    requires Gathered(c0, k0, k, content, ids, extra, f, j, r, spare) && k < FRAME_COUNT
    ensures |content| == FRAME_COUNT && |c0| == FRAME_COUNT && content[k] == c0[k]
    ensures content[k] != 0 ==> Gathered(c0, k0, k + 1, content, ids + [content[k]], extra, f, j, r, spare)
  {
    hide Fills;
    assert |content| == FRAME_COUNT && |c0| == FRAME_COUNT by { FillsLength(c0, content, extra, f, j); }
  }

  lemma FillsLength(c0: seq<nat>, content: seq<nat>, extra: map<nat, Role>, f: nat, j: nat)
    requires Fills(c0, content, extra, f, j)
    ensures |c0| == |content| == FRAME_COUNT
  {
  }

  lemma GatheredNew(c0: seq<nat>, k0: nat, k: nat, content: seq<nat>, ids: seq<nat>, extra: map<nat, Role>,
                    f: nat, j: nat, r: map<nat, Role>, spare: set<nat>, bid: nat)
    requires Gathered(c0, k0, k, content, ids, extra, f, j, r, spare) && k < FRAME_COUNT
    requires |content| == FRAME_COUNT && content[k] == 0
    requires bid != 0 && bid !in r && bid !in spare && bid !in extra
    ensures Gathered(c0, k0, k + 1, content[k := bid], ids + [bid], extra[bid := RData(f, j, k)], f, j, r, spare)
  {
    hide Fills;
    FillsLength(c0, content, extra, f, j);
    FillsMore(c0, content, extra, f, j, k, bid);
    var c', x' := content[k := bid], extra[bid := RData(f, j, k)];
    assert x'.Keys == extra.Keys + {bid};
    assert forall h | 0 <= h < FRAME_COUNT && h != k :: c'[h] == content[h];
  }

  lemma GatheredAll(c0: seq<nat>, k0: nat, k: nat, content: seq<nat>, ids: seq<nat>, extra: map<nat, Role>,
                    f: nat, j: nat, r: map<nat, Role>, spare: set<nat>)
    requires Gathered(c0, k0, k, content, ids, extra, f, j, r, spare)
    ensures Fills(c0, content, extra, f, j) && |ids| == k - k0 && |c0| == |content| == FRAME_COUNT && k0 + |ids| == k <= FRAME_COUNT
    ensures forall i | 0 <= i < |ids| :: ids[i] == content[k0 + i] && ids[i] != 0
    ensures forall h | 0 <= h < FRAME_COUNT && !(k0 <= h < k) :: content[h] == c0[h]
    ensures forall h | k0 <= h < k :: content[h] != 0 && (c0[h] != 0 ==> content[h] == c0[h])
    ensures spare !! extra.Keys && r.Keys !! extra.Keys
  {
    forall h | k0 <= h < k
      ensures content[h] != 0
    {
      assert ids[h - k0] == content[k0 + (h - k0)];
    }
  }

  lemma MissingStep(file: FileNode, a: nat, n: nat)
    ensures Missing(file, a, n) >= 0
    ensures n == 0 ==> Missing(file, a, n) == 0
    ensures n > 0 && a / FRAME_COUNT < |file.chain| ==>
              Missing(file, a, n) == (if Entry(file, a) == 0 then 1 else 0) + Missing(file, a + 1, n - 1)
  {
    hide Entry;
  }

  lemma FillsNone(c: seq<nat>, f: nat, j: nat)
    requires |c| == FRAME_COUNT
    ensures Fills(c, c, map[], f, j)
  {
  }

  lemma FillsMore(before: seq<nat>, content: seq<nat>, extra: map<nat, Role>, f: nat, j: nat, k: nat, bid: nat)
    requires Fills(before, content, extra, f, j) && k < FRAME_COUNT && content[k] == 0
    requires bid !in content && bid !in extra && bid != 0 && 0 !in extra
    ensures Fills(before, content[k := bid], extra[bid := RData(f, j, k)], f, j)
  {
  }

  /** The set entries of a frame have roles. */
  lemma EntriesOfFrame(d: seq<Block>, t: Tree, r: map<nat, Role>, f: nat, j: nat)
    requires Consistent(d, t, r) && f in t.files && j < |t.files[f].chain|
    ensures |t.files[f].chain[j].content| == FRAME_COUNT
    ensures forall h | 0 <= h < FRAME_COUNT :: t.files[f].chain[j].content[h] == 0 || t.files[f].chain[j].content[h] in r
  {
    hide Consistent;
    FrameFacts(d, t, r, f, j);
  }

  lemma EntryAt(file: FileNode, j: nat, k: nat)
    requires j < |file.chain| && k < FRAME_COUNT && |file.chain[j].content| == FRAME_COUNT
    ensures (FRAME_COUNT * j + k) / FRAME_COUNT == j && (FRAME_COUNT * j + k) % FRAME_COUNT == k
    ensures Entry(file, FRAME_COUNT * j + k) == file.chain[j].content[k]
  {
  }

  lemma HasDirIndex(t: Tree, name: string)
    requires HasDir(t, name)
    ensures FindDir(t, name) < |t.dirs|
  {
  }

  lemma FirstDirOnly(d: seq<Block>, t: Tree, r: map<nat, Role>, i: nat)
    requires Consistent(d, t, r) && i < |t.dirs|
    ensures t.dirs[i].bid == DirAt(t, 0) <==> i == 0
    ensures i == 0 ==> LinkPast(t, i) == (0, SuperBlk(SuperOf(t).(firstDir := DirAt(t, 1))))
    ensures DirAt(RemovedDir(t, r, i), 0) == if i == 0 then DirAt(t, 1) else DirAt(t, 0)
  {
    hide Consistent;
    DirBlockFacts(d, t, r, i);
    DirBlockFacts(d, t, r, 0);
  }

  lemma RmdirNames(t: Tree, r: map<nat, Role>, i: nat)
    requires Named(t) && Sized(t) && i < |t.dirs|
    ensures Named(RemovedDir(t, r, i)) && Sized(RemovedDir(t, r, i))
  {
    var t2 := RemovedDir(t, r, i);
    forall k | 0 <= k < |t2.dirs|
      ensures NamedSlots(t2, t2.dirs[k].slots)
    {
      assert t2.dirs[k] == t.dirs[if k < i then k else k + 1];
    }
  }

  lemma RmdirContents(d: seq<Block>, t: Tree, r: map<nat, Role>, d2: seq<Block>, i: nat)
    requires i < |t.dirs| && KeepsFiles(d, RemovedDir(t, r, i), d2, RemovedDir(t, r, i))
    ensures forall f | f in FilesOf(d2, RemovedDir(t, r, i)) ::
              f in FilesOf(d, t) && FilesOf(d2, RemovedDir(t, r, i))[f] == FilesOf(d, t)[f]
  {
    hide At;
    var t2 := RemovedDir(t, r, i);
    forall f | f in t2.files
      ensures Bytes(d2, t2.files[f]) == Bytes(d, t.files[f])
    {
      SameFileBytes(d, t2.files[f], d2, t2.files[f]);
    }
  }

  function LastDir(t: Tree): DirNode
    requires t.dirs != []
  {
    t.dirs[|t.dirs| - 1]
  }

  lemma LogGrowsTrans(a: seq<seq<Block>>, b: seq<seq<Block>>, c: seq<seq<Block>>)
    requires LogGrows(a, b) && LogGrows(b, c)
    ensures LogGrows(a, c)
  {
    hide SafeImage;
  }

  lemma KeepsTrans(d: seq<Block>, t: Tree, d1: seq<Block>, t1: Tree, d2: seq<Block>, t2: Tree)
    requires KeepsFiles(d, t, d1, t1) && KeepsFiles(d1, t1, d2, t2)
    ensures KeepsFiles(d, t, d2, t2)
  {
    hide At;
  }

  /** Files that keep their bytes and their sizes keep their contents. */
  lemma SameContents(d: seq<Block>, t: Tree, d2: seq<Block>, t2: Tree)
    requires KeepsFiles(d, t, d2, t2) && t.files.Keys == t2.files.Keys
    requires forall f | f in t.files :: f in t2.files && t2.files[f].size == t.files[f].size
    ensures FilesOf(d2, t2) == FilesOf(d, t)
  {
    hide At;
    forall f | f in t.files
      ensures Bytes(d2, t2.files[f]) == Bytes(d, t.files[f])
    {
      SameFileBytes(d, t.files[f], d2, t2.files[f]);
    }
  }

  lemma SameFileBytes(d: seq<Block>, a: FileNode, d2: seq<Block>, b: FileNode)
    requires SameBytes(d, a, d2, b) && a.size == b.size
    ensures Bytes(d2, b) == Bytes(d, a)
  {
    hide At;
  }

  lemma MkdirNames(t: Tree, t2: Tree, name: string)
    requires Named(t) && Sized(t) && !HasDir(t, name)
    requires exists b :: t2 == t.(dirs := t.dirs + [DirNode(b, name, Zeros(NINODES))])
    ensures Named(t2) && Sized(t2)
  {
  }

  /** Where the last link of the directory list is. */
  lemma LinkOfTree(d: seq<Block>, t: Tree, r: map<nat, Role>, b: nat)
    requires Consistent(d, t, r)
    ensures DirAt(t, 0) == 0 <==> t.dirs == []
    ensures t.dirs == [] ==> LinkToDir(t, b) == (0, SuperBlk(SuperOf(t).(firstDir := b)))
    ensures DirAt(AppendedDirs(t, b), 0) == if t.dirs == [] then b else DirAt(t, 0)
  {
    hide Consistent;
    if t.dirs != [] {
      DirBlockFacts(d, t, r, 0);
    }
  }

  /** The contents of every file, by its inode. */
  ghost function FilesOf(d: seq<Block>, t: Tree): map<nat, seq<byte>> {
    map f | f in t.files :: Bytes(d, t.files[f])
  }

  /** A freemap that marks the first two blocks holds an empty tree. */
  lemma EmptyIsSound(d: seq<Block>, w: seq<bv32>)
    requires |d| == BLOCKS && d[0] == SuperBlk(Superblock(SFS_MAGIC, 1024, 1, 0)) && d[1] == FreemapBlk(w)
    requires |w| == WORDS && w[0] == 0x3 && forall i | 1 <= i < WORDS :: w[i] == 0
    ensures forall b: nat | b < BLOCKS :: Marked(w, b) <==> b < 2
    ensures Sound(d, Tree([], map[]), map[0 := RSuper, 1 := RFreemap], {})
  {
    hide Bit;
    forall b: nat | b < BLOCKS
      ensures Marked(w, b) <==> b < 2
    {
      ZeroWord(b % 32);
      ThreeWord(b % 32);
    }
  }

  lemma ZeroWord(k: nat)
    requires k < 32
    ensures !Bit(0, k)
  {
    hide Mask;
    MaskNonZero(k);
  }

  lemma ThreeWord(k: nat)
    requires k < 32
    ensures Bit(0x3, k) <==> k < 2
  {
    hide Bit;
    ZeroWord(k);
    assert Or(Or(0, Mask(0)), Mask(1)) == 0x3;
    BitUpdate(0, 0, k);
    BitUpdate(Or(0, Mask(0)), 1, k);
  }

  lemma SetMarkIs(w: seq<bv32>, b: nat)
    requires b / 32 < |w|
    ensures SetMark(w, b) == w[b / 32 := Or(w[b / 32], Mask(b % 32))]
  {
  }

  lemma FirstIsFree(w: seq<bv32>, b: nat)
    requires IsLeastFree(w, b)
    ensures b < 32 * |w| && !Marked(w, b)
    ensures FreeCount(w) > 0
  {
    hide Marked, FreeCount;
    FreeCountPositive(w);
  }

  lemma NoneIsFree(w: seq<bv32>)
    requires forall b: nat | b < 32 * |w| :: Marked(w, b)
    ensures FreeCount(w) == 0
  {
    hide Marked, FreeCount;
    FreeCountPositive(w);
  }

  // ---- listing files ----

  /** The files in slots before slot s of directory i. */
  ghost function ListedBefore(t: Tree, r: map<nat, Role>, i: nat, s: nat): set<nat> {
    set f | f in t.files && f in r && r[f].RInode? && r[f].dir in r && r[r[f].dir].RDir?
            && (r[r[f].dir].idx < i || (r[r[f].dir].idx == i && r[f].slot < s))
  }

  lemma NoneListed(t: Tree, r: map<nat, Role>)
    ensures |ListedBefore(t, r, 0, 0)| == 0
  {
  }

  lemma ListNext(d: seq<Block>, t: Tree, r: map<nat, Role>, i: nat, s: nat)
    requires Consistent(d, t, r) && i < |t.dirs| && s < NINODES
    ensures |t.dirs[i].slots| == NINODES
    ensures |ListedBefore(t, r, i, s + 1)| == |ListedBefore(t, r, i, s)| + (if t.dirs[i].slots[s] != 0 then 1 else 0)
  {
    hide Consistent, Holds, AsDir;
    DirBlockFacts(d, t, r, i);
    var f := t.dirs[i].slots[s];
    forall g | g in t.files && g in r && r[g].RInode? && r[g].dir in r && r[r[g].dir].RDir?
      ensures r[r[g].dir].idx == i && r[g].slot == s <==> g == f && f != 0
    {
      BlockFacts(d, t, r, g);
      UsedIsPositive(d, t, r, g);
    }
    if f != 0 {
      assert ListedBefore(t, r, i, s + 1) == ListedBefore(t, r, i, s) + {f};
    } else {
      assert ListedBefore(t, r, i, s + 1) == ListedBefore(t, r, i, s);
    }
  }

  lemma ListDir(d: seq<Block>, t: Tree, r: map<nat, Role>, i: nat)
    requires Consistent(d, t, r) && i < |t.dirs|
    ensures ListedBefore(t, r, i + 1, 0) == ListedBefore(t, r, i, NINODES)
  {
    hide Consistent, Holds, AsDir;
    DirBlockFacts(d, t, r, i);
    forall g | g in t.files && g in r && r[g].RInode? && r[g].dir in r && r[r[g].dir].RDir? && r[r[g].dir].idx == i
      ensures r[g].slot < NINODES
    {
      BlockFacts(d, t, r, g);
    }
  }

  lemma ListAll(d: seq<Block>, t: Tree, r: map<nat, Role>)
    requires Consistent(d, t, r)
    ensures ListedBefore(t, r, |t.dirs|, 0) == t.files.Keys
    ensures |ListedBefore(t, r, |t.dirs|, 0)| == |t.files|
  {
    hide Consistent, Holds, FilePlaced;
    forall f | f in t.files
      ensures f in ListedBefore(t, r, |t.dirs|, 0)
    {
      FileFacts(d, t, r, f);
      BlockFacts(d, t, r, f);
    }
    assert ListedBefore(t, r, |t.dirs|, 0) == t.files.Keys;
  }

  /** A directory block on the walk: it has no successor exactly when it is the last, where the link goes. */
  lemma WalkOn(d: seq<Block>, t: Tree, r: map<nat, Role>, i: nat, b: nat)
    requires Consistent(d, t, r) && i < |t.dirs|
    ensures 1 < t.dirs[i].bid < |d| == BLOCKS
    ensures AsDir(d[t.dirs[i].bid]).DirBlk? && AsDir(d[t.dirs[i].bid]).nextDir == DirAt(t, i + 1)
    ensures DirAt(t, i + 1) == 0 <==> i + 1 == |t.dirs|
    ensures i + 1 == |t.dirs| ==> LinkToDir(t, b) == (t.dirs[i].bid, AsDir(d[t.dirs[i].bid]).(nextDir := b))
  {
    hide Consistent, AsDir;
    LengthFact(d, t, r);
    DirBlockFacts(d, t, r, i);
    if i + 1 < |t.dirs| {
      DirBlockFacts(d, t, r, i + 1);
    }
  }

  lemma GrownIsFresh(d0: seq<Block>, t0: Tree, r0: map<nat, Role>, d: seq<Block>, t: Tree, r: map<nat, Role>, spare: set<nat>, f: nat, size: nat)
    requires Sound(d0, t0, r0, spare) && Sound(d, t, r, spare) && f in t0.files && f in t.files
    requires RolesGrow(r0, r, f) && KeepsFiles(d0, t0, d, t) && Grown(t0.files[f], t.files[f], size)
    ensures FreshFrames(d0, d, t0.files[f], t.files[f])
  {
    hide Sound, SameBytes, FreshFrames, FrameCount;
    FramesAreFresh(d0, t0, r0, d, t, r, spare, f);
  }

  lemma MoreIsFresh(d0: seq<Block>, t0: Tree, r0: map<nat, Role>, d: seq<Block>, t: Tree, r: map<nat, Role>, spare: set<nat>, f: nat, bid: nat)
    requires Sound(d0, t0, r0, spare) && Sound(d, t, r, spare) && f in t0.files && f in t.files
    requires RolesGrow(r0, r, f) && KeepsFiles(d0, t0, d, t) && OneMoreFrame(t0.files[f], t.files[f], bid)
    ensures FreshFrames(d0, d, t0.files[f], t.files[f])
  {
    hide Sound, SameBytes, FreshFrames;
    FramesAreFresh(d0, t0, r0, d, t, r, spare, f);
  }

  // ---- the blocks of a file, counted ----

  /** The content blocks under the first n entries of a file. */
  lemma {:induction false} CountData(d: seq<Block>, t: Tree, r: map<nat, Role>, f: nat, n: nat) returns (data: set<nat>)
    requires Consistent(d, t, r) && f in t.files && n <= FRAME_COUNT * |t.files[f].chain|
    ensures |data| == n - Missing(t.files[f], 0, n)
    ensures forall b :: b in data <==> b in r && r[b].RData? && r[b].file == f && FRAME_COUNT * r[b].frame + r[b].pos < n
  {
    hide Consistent, Missing, Entry;
    var file := t.files[f];
    if n == 0 {
      data := {};
      MissingStep(file, 0, 0);
    } else {
      var before := CountData(d, t, r, f, n - 1);
      MissingSplit(file, 0, n - 1, 1);
      MissingStep(file, n - 1, 1);
      MissingStep(file, n, 0);
      EntryHasRole(d, t, r, f, n - 1);
      data := if Entry(file, n - 1) == 0 then before else before + {Entry(file, n - 1)};
      forall b
        ensures b in data <==> b in r && r[b].RData? && r[b].file == f && FRAME_COUNT * r[b].frame + r[b].pos < n
      {
        if b in r && r[b].RData? && r[b].file == f && FRAME_COUNT * r[b].frame + r[b].pos == n - 1 {
          RoleHasEntry(d, t, r, f, b);
        }
      }
    }
  }

  lemma EntryHasRole(d: seq<Block>, t: Tree, r: map<nat, Role>, f: nat, k: nat)
    requires Consistent(d, t, r) && f in t.files && k < FRAME_COUNT * |t.files[f].chain|
    ensures k / FRAME_COUNT < |t.files[f].chain|
    ensures var b := Entry(t.files[f], k); b != 0 ==> b in r && r[b] == RData(f, k / FRAME_COUNT, k % FRAME_COUNT)
  {
    hide Consistent;
    DataFacts(d, t, r, f, k / FRAME_COUNT, k % FRAME_COUNT);
  }

  lemma RoleHasEntry(d: seq<Block>, t: Tree, r: map<nat, Role>, f: nat, b: nat)
    requires Consistent(d, t, r) && b in r && r[b].RData? && r[b].file == f
    ensures b != 0 && f in t.files && r[b].pos < FRAME_COUNT && r[b].frame < |t.files[f].chain|
    ensures Entry(t.files[f], FRAME_COUNT * r[b].frame + r[b].pos) == b
  {
    hide Consistent, Holds;
    BlockFacts(d, t, r, b);
    SystemBlocks(d, t, r);
    FrameFacts(d, t, r, f, r[b].frame);
    EntryAt(t.files[f], r[b].frame, r[b].pos);
  }

  /** The first n frames of a file. */
  lemma {:induction false} CountFrames(d: seq<Block>, t: Tree, r: map<nat, Role>, f: nat, n: nat) returns (frames: set<nat>)
    requires Consistent(d, t, r) && f in t.files && n <= |t.files[f].chain|
    ensures |frames| == n
    ensures forall b :: b in frames <==> b in r && r[b].RFrame? && r[b].file == f && r[b].frame < n
  {
    hide Consistent;
    if n == 0 {
      frames := {};
    } else {
      var before := CountFrames(d, t, r, f, n - 1);
      FrameFacts(d, t, r, f, n - 1);
      frames := before + {t.files[f].chain[n - 1].bid};
      forall b | b in r && r[b].RFrame? && r[b].file == f && r[b].frame == n - 1
        ensures b == t.files[f].chain[n - 1].bid
      {
        BlockFacts(d, t, r, b);
      }
    }
  }

  /** The blocks of a file: its inode, its frames and its content blocks. */
  lemma CountOwn(d: seq<Block>, t: Tree, r: map<nat, Role>, f: nat) returns (own: set<nat>)
    requires Consistent(d, t, r) && f in t.files
    ensures |own| == Taken(t.files[f])
    ensures forall b :: b in own <==> b in r && (b == f || OfFile(r[b], f))
  {
    hide Consistent, Missing;
    FileFacts(d, t, r, f);
    var n := |t.files[f].chain|;
    var frames := CountFrames(d, t, r, f, n);
    var data := CountData(d, t, r, f, FRAME_COUNT * n);
    var linked := frames + data;
    assert |linked| == |frames| + |data|;
    own := linked + {f};
    forall b | b in r && OfFile(r[b], f)
      ensures b in linked
    {
      BlockFacts(d, t, r, b);
      if r[b].RData? {
        RoleHasEntry(d, t, r, f, b);
      }
    }
  }

  /** Without a file there are as many blocks fewer as the file has. */
  lemma WithoutCount(d: seq<Block>, t: Tree, r: map<nat, Role>, f: nat)
    requires Consistent(d, t, r) && f in t.files
    ensures |Without(r, f)| == |r| - Taken(t.files[f])
  {
    hide Consistent, Taken, OfFile;
    var own := CountOwn(d, t, r, f);
    assert Without(r, f).Keys == r.Keys - own;
    assert own <= r.Keys;
  }

  /** Taking a file out of a store frees the blocks that the file has. */
  lemma RemovalFrees(d: seq<Block>, t: Tree, r: map<nat, Role>, d2: seq<Block>, t2: Tree, spare: set<nat>, f: nat)
    requires Sound(d, t, r, spare) && Sound(d2, t2, Without(r, f), spare) && f in t.files
    ensures FreeCount(MapOf(d2)) == FreeCount(MapOf(d)) + Taken(t.files[f])
  {
    hide Consistent, MapIs, ZeroTail, Without, Taken, FreeCount;
    FreeIsRest(d, t, r, spare);
    FreeIsRest(d2, t2, Without(r, f), spare);
    WithoutCount(d, t, r, f);
  }
}
