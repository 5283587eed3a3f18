/** The bytes of a file, read off an image through the file's frames. */
module Contents {
  import opened Layout
  import opened Steps

  const FRAME_BYTES: nat := BLOCK_SIZE * FRAME_COUNT  // 65024

  /** Content block number k of a file: entry k % 127 of frame k / 127; 0 when there is none. */
  function Entry(file: FileNode, k: nat): nat {
    if k / FRAME_COUNT < |file.chain| && k % FRAME_COUNT < |file.chain[k / FRAME_COUNT].content|
    then file.chain[k / FRAME_COUNT].content[k % FRAME_COUNT] else 0
  }

  /** The content block that holds byte p of a file; 0 when there is none. */
  function BlockOf(file: FileNode, p: nat): nat {
    Entry(file, p / BLOCK_SIZE)
  }

  /** Byte p of a block of content; 0 in a block that is not there. */
  function ByteIn(d: seq<Block>, b: nat, o: nat): byte {
    if b != 0 && b < |d| && d[b].DataBlk? && o < |d[b].bytes| then d[b].bytes[o] else 0
  }

  /** Byte p of a file, also beyond its size. */
  function At(d: seq<Block>, file: FileNode, p: nat): byte {
    ByteIn(d, BlockOf(file, p), p % BLOCK_SIZE)
  }

  /** The contents of a file. */
  function Bytes(d: seq<Block>, file: FileNode): (s: seq<byte>)
    ensures |s| == file.size
    ensures forall p: nat | p < file.size :: s[p] == At(d, file, p)
  {
    seq(file.size, p requires 0 <= p => At(d, file, p))
  }

  /** Beyond its size a file holds zeros. */
  ghost predicate ZeroTail(d: seq<Block>, file: FileNode) {
    forall p: nat | p >= file.size :: At(d, file, p) == 0
  }

  /** The second file holds the bytes of the first, at every position. */
  ghost predicate SameBytes(d: seq<Block>, a: FileNode, d2: seq<Block>, b: FileNode) {
    forall p: nat :: At(d2, b, p) == At(d, a, p)
  }

  /** The content block of byte p, when there is one, has the role of that place. */
  lemma BlockOfRole(d: seq<Block>, t: Tree, r: map<nat, Role>, f: nat, p: nat)
    requires Consistent(d, t, r) && f in t.files
    ensures var b := BlockOf(t.files[f], p); var k := p / BLOCK_SIZE;
      b != 0 ==> b in r && b < |d| && r[b] == RData(f, k / FRAME_COUNT, k % FRAME_COUNT) && d[b].DataBlk? && |d[b].bytes| == BLOCK_SIZE
  {
    hide Consistent;
    LengthFact(d, t, r);
    var k := p / BLOCK_SIZE;
    if k / FRAME_COUNT < |t.files[f].chain| {
      DataFacts(d, t, r, f, k / FRAME_COUNT, k % FRAME_COUNT);
    }
  }

  /** A change of blocks that are not content leaves every file's bytes. */
  lemma KeepBytes(d: seq<Block>, t: Tree, r: map<nat, Role>, d2: seq<Block>, f: nat)
    requires Consistent(d, t, r) && f in t.files && |d2| == |d|
    requires forall b | b in r && r[b].RData? && b < |d| :: d2[b] == d[b]
    ensures SameBytes(d, t.files[f], d2, t.files[f])
  {
    hide Consistent, BlockOf;
    forall p: nat
      ensures At(d2, t.files[f], p) == At(d, t.files[f], p)
    {
      BlockOfRole(d, t, r, f, p);
    }
  }

  /** A new frame without content blocks adds no bytes. */
  lemma FrameAddsNone(d: seq<Block>, file: FileNode, b: nat, p: nat)
    ensures At(d, WithFrame(file, b), p) == At(d, file, p)
  {
  }

  /** Cleared blocks in entries that were unset add no bytes. */
  lemma FillAddsNone(d: seq<Block>, file: FileNode, f: nat, j: nat, content: seq<nat>, extra: map<nat, Role>, p: nat)
    requires j < |file.chain| && Fills(file.chain[j].content, content, extra, f, j)
    requires forall b | b in extra :: b < |d| && d[b] == ZERO_BLOCK
    ensures At(d, WithContent(file, j, content), p) == At(d, file, p)
  {
    var k := p / BLOCK_SIZE;
    if k / FRAME_COUNT == j {
      assert content[k % FRAME_COUNT] == file.chain[j].content[k % FRAME_COUNT] || content[k % FRAME_COUNT] in extra;
    }
  }

  /** Writing content block number k of file f changes the bytes of that block and no others. */
  lemma DataWriteBytes(d: seq<Block>, t: Tree, r: map<nat, Role>, f: nat, q: nat, bytes: seq<byte>, g: nat, p: nat)
    requires Consistent(d, t, r) && f in t.files && g in t.files && |bytes| == BLOCK_SIZE
    requires BlockOf(t.files[f], q) != 0
    ensures BlockOf(t.files[f], q) < |d|
    ensures At(d[BlockOf(t.files[f], q) := DataBlk(bytes)], t.files[g], p)
         == if g == f && p / BLOCK_SIZE == q / BLOCK_SIZE then bytes[p % BLOCK_SIZE] else At(d, t.files[g], p)
  {
    hide Consistent, BlockOf;
    BlockOfRole(d, t, r, f, q);
    BlockOfRole(d, t, r, g, p);
    if p / BLOCK_SIZE == q / BLOCK_SIZE {
      SameBlockOf(t.files[f], q, p);
    }
  }

  lemma SameBlockOf(file: FileNode, p: nat, q: nat)
    requires p / BLOCK_SIZE == q / BLOCK_SIZE
    ensures BlockOf(file, p) == BlockOf(file, q)
  {
  }
}
