/** One chunk of the copy loops of sfs_write and sfs_read. */
module Copying {
  import opened Bits
  import opened ByteFile
  import opened Contents
  import opened Layout
  import opened Reachability
  import opened Steps
  import opened Store

  /** A block with n bytes replaced from offset o on. */
  function Patched(whole: seq<byte>, o: nat, piece: seq<byte>): (r: seq<byte>)
    requires o + |piece| <= |whole|
  {
    whole[..o] + piece + whole[o + |piece|..]
  }

  lemma PatchedAt(s: seq<byte>, o: nat, piece: seq<byte>, i: nat)
    requires o + |piece| <= |s| && i < |s|
    ensures |Patched(s, o, piece)| == |s|
    ensures Patched(s, o, piece)[i] == if o <= i < o + |piece| then piece[i - o] else s[i]
  {
  }

  /** The block of byte cur of a file, as far as the file's bytes show it. */
  lemma BlockBytes(d: seq<Block>, t: Tree, r: map<nat, Role>, f: nat, cur: nat, o: nat)
    requires Consistent(d, t, r) && f in t.files && BlockOf(t.files[f], cur) != 0 && o < BLOCK_SIZE
    ensures var b := BlockOf(t.files[f], cur);
      b < |d| && d[b].DataBlk? && |d[b].bytes| == BLOCK_SIZE && b in r && r[b].RData? &&
      d[b].bytes[o] == At(d, t.files[f], cur - cur % BLOCK_SIZE + o)
  {
    hide Consistent, BlockOf;
    BlockOfRole(d, t, r, f, cur);
    SameBlockOf(t.files[f], cur, cur - cur % BLOCK_SIZE + o);
  }

  /** Writing a piece of at most the rest of a block at cur, inside the file. */
  lemma PatchSound(d: seq<Block>, t: Tree, r: map<nat, Role>, spare: set<nat>, f: nat, cur: nat, piece: seq<byte>)
    requires Sound(d, t, r, spare) && f in t.files && BlockOf(t.files[f], cur) != 0
    requires cur % BLOCK_SIZE + |piece| <= BLOCK_SIZE && cur + |piece| <= t.files[f].size
    ensures var b := BlockOf(t.files[f], cur);
      && b < |d| && d[b].DataBlk? && |d[b].bytes| == BLOCK_SIZE
      && var d2 := d[b := DataBlk(Patched(d[b].bytes, cur % BLOCK_SIZE, piece))];
        && SafeImage(d2) && MapOf(d2) == MapOf(d) && Sound(d2, t, r, spare)
        && Patch(d, d2, t.files[f], cur, piece)
        && (forall g | g in t.files && g != f :: SameBytes(d, t.files[g], d2, t.files[g]))
  {
    hide Sound, SafeImage, At, BlockOf, SameBytes, Patched, ZeroTail, Patch, PatchedBlock;
    var b := BlockOf(t.files[f], cur);
    SoundTail(d, t, r, spare, f);
    BlockOfRole(d, t, r, f, cur);
    var bytes := Patched(d[b].bytes, cur % BLOCK_SIZE, piece);
    PatchedIs(d, t, r, f, cur, piece);
    PatchedTail(d, t.files[f], cur, piece, bytes);
    WriteDataSound(d, t, r, spare, f, cur, bytes);
    var d2 := d[b := DataBlk(bytes)];
    BlockIsPatch(d, d2, t.files[f], cur, piece, bytes);
  }

  /** The bytes are those of the block of byte cur with the piece laid over them. */
  ghost predicate PatchedBlock(d: seq<Block>, file: FileNode, cur: nat, piece: seq<byte>, bytes: seq<byte>) {
    var o := cur % BLOCK_SIZE;
    && |bytes| == BLOCK_SIZE
    && forall i | 0 <= i < BLOCK_SIZE :: bytes[i] == if o <= i < o + |piece| then piece[i - o] else At(d, file, cur - o + i)
  }

  lemma PatchedIs(d: seq<Block>, t: Tree, r: map<nat, Role>, f: nat, cur: nat, piece: seq<byte>)
    requires Consistent(d, t, r) && f in t.files && BlockOf(t.files[f], cur) != 0
    requires cur % BLOCK_SIZE + |piece| <= BLOCK_SIZE
    ensures var b := BlockOf(t.files[f], cur);
      && b < |d| && d[b].DataBlk? && |d[b].bytes| == BLOCK_SIZE
      && PatchedBlock(d, t.files[f], cur, piece, Patched(d[b].bytes, cur % BLOCK_SIZE, piece))
      && |Patched(d[b].bytes, cur % BLOCK_SIZE, piece)| == BLOCK_SIZE
  {
    hide Consistent, At, BlockOf, Patched;
    var b := BlockOf(t.files[f], cur);
    BlockOfRole(d, t, r, f, cur);
    var o := cur % BLOCK_SIZE;
    var bytes := Patched(d[b].bytes, o, piece);
    PatchedAt(d[b].bytes, o, piece, 0);
    forall i | 0 <= i < BLOCK_SIZE
      ensures bytes[i] == if o <= i < o + |piece| then piece[i - o] else At(d, t.files[f], cur - o + i)
    {
      PatchedAt(d[b].bytes, o, piece, i);
      BlockBytes(d, t, r, f, cur, i);
    }
  }

  lemma PatchedTail(d: seq<Block>, file: FileNode, cur: nat, piece: seq<byte>, bytes: seq<byte>)
    requires PatchedBlock(d, file, cur, piece, bytes) && ZeroTail(d, file) && cur + |piece| <= file.size
    ensures |bytes| == BLOCK_SIZE
    ensures forall i | 0 <= i < BLOCK_SIZE && cur / BLOCK_SIZE * BLOCK_SIZE + i >= file.size :: bytes[i] == 0
  {
    hide At, ZeroTail;
    forall i | 0 <= i < BLOCK_SIZE && cur / BLOCK_SIZE * BLOCK_SIZE + i >= file.size
      ensures bytes[i] == 0
    {
      assert cur / BLOCK_SIZE * BLOCK_SIZE == cur - cur % BLOCK_SIZE;
      TailIsZero(d, file, cur - cur % BLOCK_SIZE + i);
    }
  }

  lemma BlockIsPatch(d: seq<Block>, d2: seq<Block>, file: FileNode, cur: nat, piece: seq<byte>, bytes: seq<byte>)
    requires PatchedBlock(d, file, cur, piece, bytes) && cur % BLOCK_SIZE + |piece| <= BLOCK_SIZE
    requires forall p: nat :: At(d2, file, p) == if p / BLOCK_SIZE == cur / BLOCK_SIZE then bytes[p % BLOCK_SIZE] else At(d, file, p)
    ensures Patch(d, d2, file, cur, piece)
  {
    hide At, PatchedBlock;
    forall p: nat
      ensures At(d2, file, p) == if cur <= p < cur + |piece| then piece[p - cur] else At(d, file, p)
    {
      if p / BLOCK_SIZE == cur / BLOCK_SIZE {
        PatchedByte(d, file, cur, piece, bytes, p);
      } else {
        ElsewhereBlock(cur, |piece|, p);
      }
    }
  }

  lemma PatchedByte(d: seq<Block>, file: FileNode, cur: nat, piece: seq<byte>, bytes: seq<byte>, p: nat)
    requires PatchedBlock(d, file, cur, piece, bytes) && p / BLOCK_SIZE == cur / BLOCK_SIZE
    ensures |bytes| == BLOCK_SIZE
    ensures bytes[p % BLOCK_SIZE] == if cur <= p < cur + |piece| then piece[p - cur] else At(d, file, p)
  {
    hide At;
    var i := p % BLOCK_SIZE;
    assert p == cur - cur % BLOCK_SIZE + i;
  }

  lemma ElsewhereBlock(cur: nat, n: nat, p: nat)
    requires cur % BLOCK_SIZE + n <= BLOCK_SIZE && p / BLOCK_SIZE != cur / BLOCK_SIZE
    ensures !(cur <= p < cur + n)
  {
  }

  lemma SoundTail(d: seq<Block>, t: Tree, r: map<nat, Role>, spare: set<nat>, f: nat)
    requires Sound(d, t, r, spare) && f in t.files
    ensures Consistent(d, t, r) && ZeroTail(d, t.files[f])
  {
    hide Consistent, ZeroTail;
  }

  lemma TailIsZero(d: seq<Block>, file: FileNode, p: nat)
    requires ZeroTail(d, file) && p >= file.size
    ensures At(d, file, p) == 0
  {
    hide At;
  }

  /** In d2 the file has the bytes of the piece from cur on, and elsewhere its bytes in d. */
  ghost predicate Patch(d: seq<Block>, d2: seq<Block>, file: FileNode, cur: nat, piece: seq<byte>) {
    forall p: nat :: At(d2, file, p) == if cur <= p < cur + |piece| then piece[p - cur] else At(d, file, p)
  }

  lemma PatchNone(d: seq<Block>, file: FileNode, cur: nat)
    ensures Patch(d, d, file, cur, [])
  {
    hide At;
  }

  lemma PatchMore(d: seq<Block>, d1: seq<Block>, d2: seq<Block>, file: FileNode, cur: nat, a: seq<byte>, b: seq<byte>)
    requires Patch(d, d1, file, cur, a) && Patch(d1, d2, file, cur + |a|, b)
    ensures Patch(d, d2, file, cur, a + b)
  {
    hide At;
  }

  /** A patched file whose size has grown to take the patch has the overwritten contents. */
  lemma PatchIsOverwrite(d0: seq<Block>, a: FileNode, d1: seq<Block>, d2: seq<Block>, b: FileNode, cur: nat, buf: seq<byte>)
    requires SameBytes(d0, a, d1, b) && ZeroTail(d0, a) && Patch(d1, d2, b, cur, buf)
    requires b.size == Max(a.size, cur + |buf|)
    ensures Bytes(d2, b) == Overwrite(Bytes(d0, a), cur, buf)
  {
    hide At;
    var s, w := Bytes(d2, b), Overwrite(Bytes(d0, a), cur, buf);
    forall p: nat | p < |s|
      ensures s[p] == w[p]
    {
      assert s[p] == At(d2, b, p);
      assert At(d1, b, p) == At(d0, a, p);
    }
  }

  // ---- how many blocks a copy loop goes through ----

  /** The rounds of a copy loop of n bytes from cur on: a rest of a block first, then whole blocks. */
  function Rounds(cur: nat, n: nat): nat
    decreases n
  {
    if n == 0 then 0 else 1 + Rounds(cur + ChunkOf(cur, n), n - ChunkOf(cur, n))
  }

  function ChunkOf(cur: nat, n: nat): (m: nat)
    ensures m <= n && (n > 0 ==> m > 0) && cur % BLOCK_SIZE + m <= BLOCK_SIZE
    ensures m < n ==> (cur + m) % BLOCK_SIZE == 0
  {
    Min(n, BLOCK_SIZE - cur % BLOCK_SIZE)
  }

  lemma NoRounds()
    ensures forall cur: nat :: Rounds(cur, 0) == 0
  {
  }

  lemma NextRound(cur: nat, n: nat, remaining: nat)
    requires n == Min(remaining, BLOCK_SIZE - cur % BLOCK_SIZE) && n > 0
    ensures Rounds(cur, remaining) == 1 + Rounds(cur + n, remaining - n)
  {
  }

  /** A copy loop uses as many ids as there are blocks under its range, and never more than it is given. */
  lemma {:induction false} RoundsExact(cur: nat, n: nat)
    ensures n > 0 ==> Rounds(cur, n) == (cur % BLOCK_SIZE + n + BLOCK_SIZE - 1) / BLOCK_SIZE
    ensures n == 0 ==> Rounds(cur, n) == 0
    ensures Rounds(cur, n) <= (cur + n) / BLOCK_SIZE - cur / BLOCK_SIZE + 1
    decreases n
  {
    if n > 0 {
      RoundsExact(cur + ChunkOf(cur, n), n - ChunkOf(cur, n));
    }
  }

  // ---- the blocks of new frames ----

  /** The block was free, and holds zeros now. */
  ghost predicate FreshBlock(d0: seq<Block>, d: seq<Block>, b: nat) {
    b < |d| && !Marked(MapOf(d0), b) && d[b] == ZERO_BLOCK
  }

  /** The entries of the frames that b has behind those of a are distinct blocks, each of them free before and cleared. */
  ghost predicate FreshFrames(d0: seq<Block>, d: seq<Block>, a: FileNode, b: FileNode) {
    && (forall j, k | |a.chain| <= j < |b.chain| && 0 <= k < |b.chain[j].content| :: FreshBlock(d0, d, b.chain[j].content[k]))
    && (forall j, k, h, l | |a.chain| <= j < |b.chain| && 0 <= k < |b.chain[j].content| && |a.chain| <= h < |b.chain| && 0 <= l < |b.chain[h].content| ::
          b.chain[j].content[k] == b.chain[h].content[l] ==> j == h && k == l)
  }

  /** Entries of new frames are of this kind when all roles stay, no spare block was used, and no bytes changed. */
  lemma FramesAreFresh(d0: seq<Block>, t0: Tree, r0: map<nat, Role>, d: seq<Block>, t: Tree, r: map<nat, Role>, spare: set<nat>, f: nat)
    requires Sound(d0, t0, r0, spare) && Sound(d, t, r, spare) && f in t0.files && f in t.files
    requires Extends(r0, r) && SameBytes(d0, t0.files[f], d, t.files[f])
    requires forall j, k | |t0.files[f].chain| <= j < |t.files[f].chain| && 0 <= k < |t.files[f].chain[j].content| :: t.files[f].chain[j].content[k] != 0
    ensures FreshFrames(d0, d, t0.files[f], t.files[f])
  {
    hide Sound, Extends, SameBytes, FreshBlock;
    var a, b := t0.files[f], t.files[f];
    forall j, k | |a.chain| <= j < |b.chain| && 0 <= k < |b.chain[j].content|
      ensures FreshBlock(d0, d, b.chain[j].content[k])
    {
      EntryIsFresh(d0, t0, r0, d, t, r, spare, f, j, k);
    }
    forall j, k, h, l | |a.chain| <= j < |b.chain| && 0 <= k < |b.chain[j].content| && |a.chain| <= h < |b.chain| && 0 <= l < |b.chain[h].content|
                        && b.chain[j].content[k] == b.chain[h].content[l]
      ensures j == h && k == l
    {
      EntryRole(d, t, r, spare, f, j, k);
      EntryRole(d, t, r, spare, f, h, l);
    }
  }

  lemma EntryRole(d: seq<Block>, t: Tree, r: map<nat, Role>, spare: set<nat>, f: nat, j: nat, k: nat)
    requires Sound(d, t, r, spare) && f in t.files && j < |t.files[f].chain|
    requires k < |t.files[f].chain[j].content| && t.files[f].chain[j].content[k] != 0
    ensures |t.files[f].chain[j].content| == FRAME_COUNT
    ensures var b := t.files[f].chain[j].content[k];
      b in r && r[b] == RData(f, j, k) && b < |d| && b < BLOCKS && d[b].DataBlk? && |d[b].bytes| == BLOCK_SIZE
  {
    hide Consistent, ZeroTail, MapIs;
    FrameFacts(d, t, r, f, j);
    DataFacts(d, t, r, f, j, k);
    LengthFact(d, t, r);
  }

  lemma EntryIsFresh(d0: seq<Block>, t0: Tree, r0: map<nat, Role>, d: seq<Block>, t: Tree, r: map<nat, Role>, spare: set<nat>, f: nat, j: nat, k: nat)
    requires Sound(d0, t0, r0, spare) && Sound(d, t, r, spare) && f in t0.files && f in t.files
    requires Extends(r0, r) && SameBytes(d0, t0.files[f], d, t.files[f])
    requires |t0.files[f].chain| <= j < |t.files[f].chain| && k < |t.files[f].chain[j].content| && t.files[f].chain[j].content[k] != 0
    ensures FreshBlock(d0, d, t.files[f].chain[j].content[k])
  {
    hide Consistent, ZeroTail, Marked, At, MapOf;
    var id := t.files[f].chain[j].content[k];
    EntryRole(d, t, r, spare, f, j, k);
    if id in r0 {
      BlockFacts(d0, t0, r0, id);
    }
    NotSpare(d, t, r, spare, id);
    forall o | 0 <= o < BLOCK_SIZE
      ensures d[id].bytes[o] == 0
    {
      var p := (FRAME_COUNT * j + k) * BLOCK_SIZE + o;
      EntryByte(d, t.files[f], j, k, o);
      assert At(d, t.files[f], p) == At(d0, t0.files[f], p);
      BeyondChain(d0, t0.files[f], j, k, o);
    }
    assert d[id] == ZERO_BLOCK;
  }

  lemma NotSpare(d: seq<Block>, t: Tree, r: map<nat, Role>, spare: set<nat>, b: nat)
    requires Sound(d, t, r, spare) && b in r
    ensures b !in spare
  {
    hide Consistent, ZeroTail;
  }

  lemma EntryByte(d: seq<Block>, file: FileNode, j: nat, k: nat, o: nat)
    requires j < |file.chain| && k < FRAME_COUNT == |file.chain[j].content| && o < BLOCK_SIZE
    requires var b := file.chain[j].content[k]; b != 0 && b < |d| && d[b].DataBlk? && |d[b].bytes| == BLOCK_SIZE
    ensures At(d, file, (FRAME_COUNT * j + k) * BLOCK_SIZE + o) == d[file.chain[j].content[k]].bytes[o]
  {
    var p := (FRAME_COUNT * j + k) * BLOCK_SIZE + o;
    assert p / BLOCK_SIZE == FRAME_COUNT * j + k && p % BLOCK_SIZE == o;
    assert (FRAME_COUNT * j + k) / FRAME_COUNT == j && (FRAME_COUNT * j + k) % FRAME_COUNT == k;
  }

  lemma BeyondChain(d: seq<Block>, file: FileNode, j: nat, k: nat, o: nat)
    requires j >= |file.chain| && k < FRAME_COUNT && o < BLOCK_SIZE
    ensures At(d, file, (FRAME_COUNT * j + k) * BLOCK_SIZE + o) == 0
  {
    var p := (FRAME_COUNT * j + k) * BLOCK_SIZE + o;
    assert p / BLOCK_SIZE == FRAME_COUNT * j + k;
    assert (FRAME_COUNT * j + k) / FRAME_COUNT == j;
  }
}
