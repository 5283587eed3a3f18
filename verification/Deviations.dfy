/**
 Where the file system's code as written differs from the operations of this
 model: what the code computes there, and exactly when that is what is meant.
 */
module Deviations {
  import opened Allocator
  import opened Bits
  import opened ByteFile
  import opened Chains
  import opened Common
  import opened Contents
  import opened Copying
  import opened Layout
  import opened Lookup
  import opened Paths
  import opened Reachability
  import opened Steps
  import opened Store
  import opened Unlinks

  // ---- strncpy for block data (PA2/fs.c:846, 853, 857, 979, 986, 990) ----

  /** strncpy of n bytes: up to the first zero byte, and zeros from there on. */
  function Strncpy(src: seq<byte>): (dst: seq<byte>)
    ensures |dst| == |src|
  {
    if src == [] then []
    else if src[0] == 0 then ZeroBytes(|src|)
    else [src[0]] + Strncpy(src[1..])
  }

  /** Behind its first zero byte the source holds zeros only. */
  predicate TextLike(src: seq<byte>) {
    forall i, j | 0 <= i < j < |src| && src[i] == 0 :: src[j] == 0
  }

  /** strncpy copies exactly the bytes that have no other byte behind a zero. */
  lemma {:induction false} StrncpyExact(src: seq<byte>)
    ensures Strncpy(src) == src <==> TextLike(src)
  {
    if src != [] {
      if src[0] == 0 {
        assert Strncpy(src) == ZeroBytes(|src|);
        if TextLike(src) {
          assert src == ZeroBytes(|src|);
        }
      } else {
        StrncpyExact(src[1..]);
        TextTail(src);
        assert src == [src[0]] + src[1..];
        assert Strncpy(src)[1..] == Strncpy(src[1..]);
      }
    }
  }

  lemma TextTail(src: seq<byte>)
    requires src != [] && src[0] != 0
    ensures TextLike(src) <==> TextLike(src[1..])
  {
    if TextLike(src[1..]) {
      forall i, j | 0 <= i < j < |src| && src[i] == 0
        ensures src[j] == 0
      {
        assert src[1..][i - 1] == 0;
        assert src[1..][j - 1] == src[j];
      }
    }
    if TextLike(src) {
      forall i, j | 0 <= i < j < |src[1..]| && src[1..][i] == 0
        ensures src[1..][j] == 0
      {
        assert src[i + 1] == 0 && src[j + 1] == src[1..][j];
      }
    }
  }

  predicate NoZero(s: seq<byte>) {
    forall i | 0 <= i < |s| :: s[i] != 0
  }

  lemma {:induction false} StrncpyOfText(src: seq<byte>)
    requires NoZero(src)
    ensures Strncpy(src) == src
  {
    StrncpyExact(src);
  }

  // ---- strcpy for whole blocks (PA3/client/dfs_client.c:228, PA3/datanode/dfs_datanode.c:113) ----

  datatype Outcome<T> = OutOfBounds | Result(value: T)

  /** strcpy into a target as long as the source: it stops behind the first zero byte, and without one runs out of both. */
  function Strcpy(src: seq<byte>, dst: seq<byte>): (r: Outcome<seq<byte>>)
    requires |src| == |dst|
    ensures r.Result? ==> |r.value| == |dst|
    decreases |src|
  {
    if src == [] then OutOfBounds
    else if src[0] == 0 then Result([0] + dst[1..])
    else
      match Strcpy(src[1..], dst[1..])
      case OutOfBounds => OutOfBounds
      case Result(rest) => Result([src[0]] + rest)
  }

  /** There is a first zero byte, and behind it the target is the source already. */
  ghost predicate AgreeBehindZero(src: seq<byte>, dst: seq<byte>)
    requires |src| == |dst|
  {
    exists z :: FirstZero(src, z) && forall k | z < k < |src| :: dst[k] == src[k]
  }

  predicate FirstZero(src: seq<byte>, z: int) {
    0 <= z < |src| && src[z] == 0 && forall k | 0 <= k < z :: src[k] != 0
  }

  /** strcpy copies a block exactly if the block has a zero byte and the target already agrees with it behind the first one. */
  lemma {:induction false} StrcpyExact(src: seq<byte>, dst: seq<byte>)
    requires |src| == |dst|
    ensures Strcpy(src, dst) == Result(src) <==> AgreeBehindZero(src, dst)
    decreases |src|
  {
    if src != [] {
      if src[0] == 0 {
        assert FirstZero(src, 0);
        if AgreeBehindZero(src, dst) {
          var z :| FirstZero(src, z) && forall k | z < k < |src| :: dst[k] == src[k];
          assert z == 0;
          assert [0] + dst[1..] == src;
        } else {
          var k :| 0 < k < |src| && dst[k] != src[k];
          assert ([0] + dst[1..])[k] == dst[k];
        }
      } else {
        StrcpyExact(src[1..], dst[1..]);
        AgreeTail(src, dst);
        assert src == [src[0]] + src[1..];
        if Strcpy(src[1..], dst[1..]).Result? {
          assert Strcpy(src, dst).value[1..] == Strcpy(src[1..], dst[1..]).value;
        }
      }
    }
  }

  lemma AgreeTail(src: seq<byte>, dst: seq<byte>)
    requires |src| == |dst| && src != [] && src[0] != 0
    ensures AgreeBehindZero(src, dst) <==> AgreeBehindZero(src[1..], dst[1..])
  {
    if AgreeBehindZero(src, dst) {
      var z :| FirstZero(src, z) && forall k | z < k < |src| :: dst[k] == src[k];
      forall k | 0 <= k < z - 1
        ensures src[1..][k] != 0
      {
        assert src[1..][k] == src[k + 1];
      }
      assert FirstZero(src[1..], z - 1);
      forall k | z - 1 < k < |src[1..]|
        ensures dst[1..][k] == src[1..][k]
      {
        assert dst[k + 1] == src[k + 1];
      }
    }
    if AgreeBehindZero(src[1..], dst[1..]) {
      var z :| FirstZero(src[1..], z) && forall k | z < k < |src[1..]| :: dst[1..][k] == src[1..][k];
      forall k | 0 <= k < z + 1
        ensures src[k] != 0
      {
        assert k == 0 || src[k] == src[1..][k - 1];
      }
      assert FirstZero(src, z + 1);
      forall k | z + 1 < k < |src|
        ensures dst[k] == src[k]
      {
        assert dst[1..][k - 1] == src[1..][k - 1];
      }
    }
  }

  /** Into a cleared target, as the datanode's, it copies just the blocks that end in zeros and have nothing but zeros behind the first. */
  lemma StrcpyToCleared(src: seq<byte>)
    ensures Strcpy(src, ZeroBytes(|src|)) == Result(src) <==> src != [] && src[|src| - 1] == 0 && TextLike(src)
  {
    hide Strcpy;
    var dst := ZeroBytes(|src|);
    StrcpyExact(src, dst);
    if src != [] && src[|src| - 1] == 0 && TextLike(src) {
      var z := FindZero(src);
      assert AgreeBehindZero(src, dst);
    } else if AgreeBehindZero(src, dst) {
      var z :| FirstZero(src, z) && forall k | z < k < |src| :: dst[k] == src[k];
      ZerosFrom(src, z);
    }
  }

  lemma ZerosFrom(src: seq<byte>, z: nat)
    requires FirstZero(src, z) && forall k | z < k < |src| :: src[k] == 0
    ensures src != [] && src[|src| - 1] == 0 && TextLike(src)
  {
  }

  lemma {:induction false} FindZero(src: seq<byte>) returns (z: nat)
    requires src != [] && src[|src| - 1] == 0
    ensures FirstZero(src, z)
    decreases |src|
  {
    if src[0] == 0 {
      z := 0;
    } else {
      var y := FindZero(src[1..]);
      z := y + 1;
      assert src[z] == src[1..][y];
      forall k | 0 <= k < z
        ensures src[k] != 0
      {
        assert k == 0 || src[k] == src[1..][k - 1];
      }
    }
  }

  // ---- copy loops that do not move on in the buffer (829-866, 967-1000) ----

  /** What the write loop puts from cur on: every chunk comes from the beginning of the buffer. */
  function WrittenAsCoded(buf: seq<byte>, cur: nat, remaining: nat): (s: seq<byte>)
    requires remaining <= |buf|
    ensures |s| == remaining
    decreases remaining
  {
    if remaining == 0 then []
    else
      var n := ChunkOf(cur, remaining);
      Strncpy(buf[..n]) + WrittenAsCoded(buf, cur + n, remaining - n)
  }

  /** In the buffer after the read loop every chunk has been laid over the beginning. */
  function ReadAsCoded(bytes: seq<byte>, cur: nat, buf: seq<byte>): (s: seq<byte>)
    requires |bytes| <= |buf|
    ensures |s| == |buf|
    decreases |bytes|
  {
    if bytes == [] then buf
    else
      var n := ChunkOf(cur, |bytes|);
      ReadAsCoded(bytes[n..], cur + n, Strncpy(bytes[..n]) + buf[n..])
  }

  predicate OneBlock(cur: nat, n: nat) {
    n == 0 || cur % BLOCK_SIZE + n <= BLOCK_SIZE
  }

  lemma OneChunk(buf: seq<byte>, cur: nat)
    requires OneBlock(cur, |buf|)
    ensures WrittenAsCoded(buf, cur, |buf|) == Strncpy(buf)
  {
    if buf != [] {
      assert ChunkOf(cur, |buf|) == |buf|;
      assert buf[..|buf|] == buf;
    }
  }

  /** Inside one block the write loop as written writes exactly the text-like buffers. */
  lemma WriteInOneBlock(buf: seq<byte>, cur: nat)
    requires OneBlock(cur, |buf|)
    ensures WrittenAsCoded(buf, cur, |buf|) == buf <==> TextLike(buf)
  {
    OneChunk(buf, cur);
    StrncpyExact(buf);
  }

  /** A buffer with a one in front of twos. */
  function Ramp(n: nat): (s: seq<byte>)
    ensures |s| == n && NoZero(s)
    ensures forall i | 0 <= i < n :: s[i] == if i == 0 then 1 else 2
  {
    seq(n, i requires 0 <= i => if i == 0 then 1 else 2)
  }

  /** The write loop as written writes every buffer without zeros of a given length exactly when it stays in one block. */
  lemma WriteExact(cur: nat, n: nat)
    ensures (forall buf | |buf| == n && NoZero(buf) :: WrittenAsCoded(buf, cur, n) == buf) <==> OneBlock(cur, n)
  {
    if OneBlock(cur, n) {
      forall buf | |buf| == n && NoZero(buf)
        ensures WrittenAsCoded(buf, cur, n) == buf
      {
        OneChunk(buf, cur);
        StrncpyOfText(buf);
      }
    } else {
      var buf := Ramp(n);
      var k := ChunkOf(cur, n);
      assert k < n;
      var m := ChunkOf(cur + k, n - k);
      StrncpyOfText(buf[..m]);
      assert WrittenAsCoded(buf, cur, n)[k] == Strncpy(buf[..m])[0] == 1;
      assert buf[k] == 2;
    }
  }

  /** A read that goes beyond a block ends with a later byte in front. */
  lemma {:induction false} FrontIsTwo(bytes: seq<byte>, cur: nat, buf: seq<byte>)
    requires 0 < |bytes| <= |buf| && forall i | 0 <= i < |bytes| :: bytes[i] == 2
    ensures ReadAsCoded(bytes, cur, buf)[0] == 2
    decreases |bytes|
  {
    var n := ChunkOf(cur, |bytes|);
    StrncpyOfText(bytes[..n]);
    var next := Strncpy(bytes[..n]) + buf[n..];
    assert next[0] == 2;
    if n < |bytes| {
      FrontIsTwo(bytes[n..], cur + n, next);
    }
  }

  /** The read loop as written reads all contents without zeros of a given length exactly when it stays in one block. */
  lemma ReadExact(cur: nat, n: nat)
    ensures (forall bytes, buf | |bytes| == n <= |buf| && NoZero(bytes) :: ReadAsCoded(bytes, cur, buf)[..n] == bytes) <==> OneBlock(cur, n)
  {
    if OneBlock(cur, n) {
      forall bytes, buf | |bytes| == n <= |buf| && NoZero(bytes)
        ensures ReadAsCoded(bytes, cur, buf)[..n] == bytes
      {
        if n != 0 {
          assert ChunkOf(cur, n) == n && bytes[..n] == bytes && bytes[n..] == [];
          StrncpyOfText(bytes);
        }
      }
    } else {
      var bytes := Ramp(n);
      var k := ChunkOf(cur, n);
      assert k < n;
      var next := Strncpy(bytes[..k]) + bytes[k..];
      FrontIsTwo(bytes[k..], cur + k, next);
      assert ReadAsCoded(bytes, cur, bytes)[0] == 2 && bytes[0] == 1;
    }
  }

  // ---- the same, buffer by buffer ----

  /** Byte o of what strncpy makes of s. */
  function TextByte(s: seq<byte>, o: nat): byte
    requires o < |s|
  {
    if forall z | 0 <= z <= o :: s[z] != 0 then s[o] else 0
  }

  lemma {:induction false} StrncpyAt(src: seq<byte>, o: nat)
    requires o < |src|
    ensures Strncpy(src)[o] == TextByte(src, o)
    decreases o
  {
    if src[0] != 0 && o > 0 {
      StrncpyAt(src[1..], o - 1);
      TextByteTail(src, o);
    }
  }

  lemma TextByteTail(src: seq<byte>, o: nat)
    requires 0 < o < |src| && src[0] != 0
    ensures TextByte(src, o) == TextByte(src[1..], o - 1)
  {
    if z :| 0 <= z <= o && src[z] == 0 {
      assert src[1..][z - 1] == 0;
    }
  }

  lemma TextByteOfPrefix(s: seq<byte>, n: nat, o: nat)
    requires o < n <= |s|
    ensures TextByte(s[..n], o) == TextByte(s, o)
  {
    if z :| 0 <= z <= o && s[z] == 0 {
      assert s[..n][z] == 0;
    }
  }

  lemma TextByteOfNoZero(s: seq<byte>, o: nat)
    requires NoZero(s) && o < |s|
    ensures TextByte(s, o) == s[o]
  {
  }

  /** How far from the beginning of its chunk byte x of a range at cur lies. */
  function InChunk(cur: nat, x: nat): (o: nat)
    ensures o <= x
  {
    if (cur + x) / BLOCK_SIZE == cur / BLOCK_SIZE then x else (cur + x) % BLOCK_SIZE
  }

  lemma InNextChunk(cur: nat, n: nat, x: nat)
    requires ChunkOf(cur, n) <= x < n
    ensures InChunk(cur, x) == InChunk(cur + ChunkOf(cur, n), x - ChunkOf(cur, n))
  {
    var c := cur + ChunkOf(cur, n);
    assert c % BLOCK_SIZE == 0 && c / BLOCK_SIZE == cur / BLOCK_SIZE + 1;
  }

  lemma {:induction false} WrittenAt(buf: seq<byte>, cur: nat, n: nat, x: nat)
    requires x < n <= |buf|
    ensures WrittenAsCoded(buf, cur, n)[x] == TextByte(buf, InChunk(cur, x))
    decreases n
  {
    var m := ChunkOf(cur, n);
    if x < m {
      StrncpyAt(buf[..m], x);
      TextByteOfPrefix(buf, m, x);
    } else {
      WrittenAt(buf, cur + m, n - m, x - m);
      InNextChunk(cur, n, x);
    }
  }

  /** The write loop as written writes a buffer right exactly if each chunk of it is what strncpy makes of its first bytes. */
  lemma WriteExactly(buf: seq<byte>, cur: nat)
    ensures WrittenAsCoded(buf, cur, |buf|) == buf <==> forall x | 0 <= x < |buf| :: buf[x] == TextByte(buf, InChunk(cur, x))
    ensures NoZero(buf) ==>
      (WrittenAsCoded(buf, cur, |buf|) == buf <==> forall x | 0 <= x < |buf| :: buf[x] == buf[InChunk(cur, x)])
  {
    hide WrittenAsCoded, TextByte, InChunk;
    forall x | 0 <= x < |buf|
      ensures WrittenAsCoded(buf, cur, |buf|)[x] == TextByte(buf, InChunk(cur, x))
      ensures NoZero(buf) ==> TextByte(buf, InChunk(cur, x)) == buf[InChunk(cur, x)]
    {
      WrittenAt(buf, cur, |buf|, x);
      if NoZero(buf) {
        TextByteOfNoZero(buf, InChunk(cur, x));
      }
    }
  }

  /** The byte of n at cur that is laid over byte y of the buffer last. */
  function LastOver(cur: nat, n: nat, y: nat): (x: Option<nat>)
    ensures x.Some? ==> y <= x.value < n
    decreases n
  {
    if n == 0 then None
    else
      var m := ChunkOf(cur, n);
      match LastOver(cur + m, n - m, y)
      case Some(x) => Some(x + m)
      case None => if y < m then Some(y) else None
  }

  /** It is the last of those that are as far from the beginning of their chunks as y is from that of the buffer. */
  lemma {:induction false} LastOverIs(cur: nat, n: nat, y: nat)
    ensures LastOver(cur, n, y).Some? ==> InChunk(cur, LastOver(cur, n, y).value) == y
    ensures forall x: nat | (match LastOver(cur, n, y) case Some(last) => last < x case None => true) && x < n :: InChunk(cur, x) != y
    decreases n
  {
    hide InChunk;
    if n != 0 {
      var m := ChunkOf(cur, n);
      LastOverIs(cur + m, n - m, y);
      forall x: nat | x < n
        ensures InChunk(cur, x) == if x < m then x else InChunk(cur + m, x - m)
      {
        if x < m {
          InFirstChunk(cur, n, x);
        } else {
          InNextChunk(cur, n, x);
        }
      }
    }
  }

  lemma InFirstChunk(cur: nat, n: nat, x: nat)
    requires x < ChunkOf(cur, n)
    ensures InChunk(cur, x) == x
  {
  }

  /** What is in byte y of the buffer after the read loop. */
  function FinalByte(bytes: seq<byte>, cur: nat, buf: seq<byte>, y: nat): byte
    requires y < |buf|
  {
    match LastOver(cur, |bytes|, y)
    case Some(x) => TextByte(bytes[x - y..], y)
    case None => buf[y]
  }

  lemma {:induction false} ReadByte(bytes: seq<byte>, cur: nat, buf: seq<byte>, y: nat)
    requires |bytes| <= |buf| && y < |buf|
    ensures ReadAsCoded(bytes, cur, buf)[y] == FinalByte(bytes, cur, buf, y)
    decreases |bytes|
  {
    hide Strncpy, TextByte, ChunkOf;
    if bytes != [] {
      var m := ChunkOf(cur, |bytes|);
      var next := Strncpy(bytes[..m]) + buf[m..];
      ReadByte(bytes[m..], cur + m, next, y);
      FinalStep(bytes, cur, buf, y);
    }
  }

  /** What is in the buffer after the first chunk decides on a byte that no later chunk is laid over. */
  lemma FinalStep(bytes: seq<byte>, cur: nat, buf: seq<byte>, y: nat)
    requires bytes != [] && |bytes| <= |buf| && y < |buf|
    ensures var m := ChunkOf(cur, |bytes|);
      FinalByte(bytes, cur, buf, y) == FinalByte(bytes[m..], cur + m, Strncpy(bytes[..m]) + buf[m..], y)
  {
    hide Strncpy, TextByte, ChunkOf, LastOver;
    var m := ChunkOf(cur, |bytes|);
    LastStep(cur, |bytes|, y);
    var first, rest := bytes[..m], bytes[m..];
    match LastOver(cur + m, |bytes| - m, y)
    case Some(x) =>
      assert rest[x - y..] == bytes[x + m - y..];
    case None =>
      if y < m {
        StrncpyAt(first, y);
        TextByteOfPrefix(bytes, m, y);
        assert bytes[y - y..] == bytes;
      }
  }

  lemma LastStep(cur: nat, n: nat, y: nat)
    requires n > 0
    ensures var m := ChunkOf(cur, n);
      LastOver(cur, n, y) == match LastOver(cur + m, n - m, y) case Some(x) => Some(x + m) case None => if y < m then Some(y) else None
  {
    hide ChunkOf;
  }

  /**
   The read loop as written reads contents right exactly if the byte laid over each
   byte of the buffer last is the right one, and behind the longest chunk the buffer is right already.
   */
  lemma ReadExactly(bytes: seq<byte>, cur: nat, buf: seq<byte>)
    requires |bytes| <= |buf|
    ensures ReadAsCoded(bytes, cur, buf)[..|bytes|] == bytes <==> forall y | 0 <= y < |bytes| :: bytes[y] == FinalByte(bytes, cur, buf, y)
    ensures NoZero(bytes) ==> forall y | 0 <= y < |bytes| ::
      FinalByte(bytes, cur, buf, y) == match LastOver(cur, |bytes|, y) case Some(x) => bytes[x] case None => buf[y]
  {
    hide ReadAsCoded, LastOver, TextByte;
    forall y | 0 <= y < |bytes|
      ensures ReadAsCoded(bytes, cur, buf)[y] == FinalByte(bytes, cur, buf, y)
      ensures NoZero(bytes) ==>
        FinalByte(bytes, cur, buf, y) == match LastOver(cur, |bytes|, y) case Some(x) => bytes[x] case None => buf[y]
    {
      ReadByte(bytes, cur, buf, y);
      match LastOver(cur, |bytes|, y)
      case Some(x) =>
        if NoZero(bytes) {
          TextByteOfNoZero(bytes[x - y..], y);
        }
      case None =>
    }
  }

  // ---- the array of block ids (801, 896) ----

  /** The id array is long enough exactly when the range does not straddle one block more. */
  lemma IdArrayLongEnough(cur: nat, length: nat)
    ensures length / BLOCK_SIZE + 1 >= (cur + length) / BLOCK_SIZE - cur / BLOCK_SIZE + 1
      <==> cur % BLOCK_SIZE + length % BLOCK_SIZE < BLOCK_SIZE
  {
  }

  /** The last id asked for is in the chain exactly when the range ends before the chain does. */
  lemma LastIdInChain(file: FileNode, cur: nat, length: nat)
    requires cur + length <= FRAME_BYTES * |file.chain|
    ensures (cur + length) / BLOCK_SIZE / FRAME_COUNT < |file.chain| <==> cur + length < FRAME_BYTES * |file.chain|
  {
  }

  // ---- the search for content blocks starts in the first frame (224-246) ----

  /** n ids by the two nested loops, from the given entry of the given frame on. */
  function WalkIds(file: FileNode, frame: nat, count: nat, n: nat): (ids: seq<nat>)
    requires count < FRAME_COUNT
    ensures |ids| == n
    decreases n
  {
    if n == 0 then []
    else
      var id := if frame < |file.chain| && count < |file.chain[frame].content| then file.chain[frame].content[count] else 0;
      [id] + if count + 1 < FRAME_COUNT then WalkIds(file, frame, count + 1, n - 1) else WalkIds(file, frame + 1, 0, n - 1)
  }

  /** The loops as written begin in the first frame. */
  function IdsAsCoded(file: FileNode, start: nat, n: nat): seq<nat> {
    WalkIds(file, 0, start % FRAME_COUNT, n)
  }

  lemma {:induction false} WalkAt(file: FileNode, frame: nat, count: nat, n: nat, i: nat)
    requires count < FRAME_COUNT && i < n
    ensures WalkIds(file, frame, count, n)[i] == Entry(file, FRAME_COUNT * frame + count + i)
    decreases n
  {
    hide Entry;
    PlaceOf(file, frame, count);
    if i > 0 {
      if count + 1 < FRAME_COUNT {
        WalkAt(file, frame, count + 1, n - 1, i - 1);
      } else {
        WalkAt(file, frame + 1, 0, n - 1, i - 1);
      }
    }
  }

  lemma PlaceOf(file: FileNode, frame: nat, count: nat)
    requires count < FRAME_COUNT
    ensures Entry(file, FRAME_COUNT * frame + count)
      == if frame < |file.chain| && count < |file.chain[frame].content| then file.chain[frame].content[count] else 0
  {
    assert (FRAME_COUNT * frame + count) / FRAME_COUNT == frame && (FRAME_COUNT * frame + count) % FRAME_COUNT == count;
  }

  /** Begun in frame start / 127, the loops give the content blocks start, start + 1, ... in order. */
  lemma WalkFromStart(file: FileNode, start: nat, n: nat)
    ensures forall i | 0 <= i < n :: WalkIds(file, start / FRAME_COUNT, start % FRAME_COUNT, n)[i] == Entry(file, start + i)
  {
    hide Entry;
    forall i | 0 <= i < n
      ensures WalkIds(file, start / FRAME_COUNT, start % FRAME_COUNT, n)[i] == Entry(file, start + i)
    {
      WalkAt(file, start / FRAME_COUNT, start % FRAME_COUNT, n, i);
    }
  }

  /** Begun in the first frame, they give the same ids exactly when block start lies there. */
  lemma FirstFrameOnly(d: seq<Block>, t: Tree, r: map<nat, Role>, f: nat, start: nat, n: nat)
    requires Consistent(d, t, r) && f in t.files && n > 0 && Entry(t.files[f], start) != 0
    ensures IdsAsCoded(t.files[f], start, n) == WalkIds(t.files[f], start / FRAME_COUNT, start % FRAME_COUNT, n) <==> start < FRAME_COUNT
  {
    hide Consistent, WalkIds, Entry;
    var file := t.files[f];
    WalkFromStart(file, start, n);
    WalkAt(file, 0, start % FRAME_COUNT, n, 0);
    if start >= FRAME_COUNT {
      assert WalkIds(file, start / FRAME_COUNT, start % FRAME_COUNT, n)[0] == Entry(file, start + 0);
      TwoEntries(d, t, r, f, start, start % FRAME_COUNT);
    }
  }

  /** The loops as written set entry start % 127 of the first frame, when it is unset, to a new block, and give that as the first id. */
  function FileAsCoded(file: FileNode, start: nat, bid: nat): FileNode
    requires file.chain != [] && |file.chain[0].content| == FRAME_COUNT
  {
    var first := file.chain[0];
    if first.content[start % FRAME_COUNT] != 0 then file
    else file.(chain := file.chain[0 := first.(content := first.content[start % FRAME_COUNT := bid])])
  }

  /**
   With unset entries too: the first id is that of block start of the file, as the
   loops leave it, exactly when block start lies in the first frame.
   */
  lemma FirstFrameFilled(d: seq<Block>, t: Tree, r: map<nat, Role>, f: nat, start: nat, bid: nat)
    requires Consistent(d, t, r) && f in t.files && t.files[f].chain != [] && bid != 0 && bid !in r
    ensures |t.files[f].chain[0].content| == FRAME_COUNT
    ensures var b := FileAsCoded(t.files[f], start, bid);
      IdsAsCoded(b, start, 1)[0] != 0 && (IdsAsCoded(b, start, 1)[0] == Entry(b, start) <==> start < FRAME_COUNT)
  {
    hide Consistent, WalkIds, Entry;
    var a := t.files[f];
    FrameFacts(d, t, r, f, 0);
    var b := FileAsCoded(a, start, bid);
    var k := start % FRAME_COUNT;
    WalkAt(b, 0, k, 1, 0);
    PlaceOf(b, 0, k);
    PlaceOf(a, 0, k);
    if start >= FRAME_COUNT {
      OtherFrame(a, b, start);
      if Entry(a, start) != 0 {
        BlockOfRole(d, t, r, f, start * BLOCK_SIZE);
        EntryBlock(a, start);
        TwoEntries(d, t, r, f, start, k);
      }
    }
  }

  lemma OtherFrame(a: FileNode, b: FileNode, k: nat)
    requires |a.chain| == |b.chain| && k >= FRAME_COUNT && forall j | 0 < j < |a.chain| :: b.chain[j] == a.chain[j]
    ensures Entry(b, k) == Entry(a, k)
  {
  }

  lemma EntryBlock(file: FileNode, k: nat)
    ensures BlockOf(file, k * BLOCK_SIZE) == Entry(file, k)
  {
  }

  /** No content block is in two places of a file. */
  lemma TwoEntries(d: seq<Block>, t: Tree, r: map<nat, Role>, f: nat, j: nat, k: nat)
    requires Consistent(d, t, r) && f in t.files && j != k && Entry(t.files[f], j) != 0
    ensures Entry(t.files[f], j) != Entry(t.files[f], k)
  {
    hide Consistent;
    var file := t.files[f];
    BlockOfRole(d, t, r, f, j * BLOCK_SIZE);
    BlockOfRole(d, t, r, f, k * BLOCK_SIZE);
    assert BlockOf(file, j * BLOCK_SIZE) == Entry(file, j);
    assert BlockOf(file, k * BLOCK_SIZE) == Entry(file, k);
  }

  // ---- resizing links new frames to the first one (160-186) ----

  /** The chain after a resize that starts linking at the first frame. */
  function ChainAsCoded(chain: seq<FrameNode>, added: seq<FrameNode>): seq<FrameNode>
    requires chain != []
  {
    if added == [] then chain else [chain[0]] + added
  }

  /** A resized file keeps all its frames exactly when it had only one, or needed no new one. */
  lemma ResizeKeepsFrames(chain: seq<FrameNode>, added: seq<FrameNode>, size: nat, newSize: nat)
    requires |chain| == FrameCount(size) && size <= newSize && |added| == FrameCount(newSize) - FrameCount(size)
    requires forall i, j | 0 <= i < |chain| && 0 <= j < |added| :: chain[i].bid != added[j].bid
    ensures chain != []
    ensures chain <= ChainAsCoded(chain, added) <==> FrameCount(size) == 1 || FrameCount(newSize) == FrameCount(size)
    ensures |ChainAsCoded(chain, added)| == FrameCount(newSize) <==> FrameCount(size) == 1 || FrameCount(newSize) == FrameCount(size)
  {
    hide FrameCount;
    FramesPositive(size);
    var coded := ChainAsCoded(chain, added);
    if |chain| > 1 && added != [] {
      assert coded[1] == added[0];
    }
  }

  lemma FramesPositive(size: nat)
    ensures FrameCount(size) >= 1
  {
  }

  // ---- remove clears a second slot (696) ----

  /** The slots of a directory after remove, with the first slot of the inode at s. The second write may miss the array. */
  function SlotsAsCoded(slots: seq<nat>, s: nat, inodeBid: nat): Outcome<seq<nat>>
    requires s < |slots|
  {
    if inodeBid < |slots| then Result(slots[s := 0][inodeBid := 0]) else OutOfBounds
  }

  /** Only the file's own slot is cleared, within the array, exactly when the second slot is in the array and empty or the file's own. */
  lemma SecondSlot(slots: seq<nat>, s: nat, inodeBid: nat)
    requires s < |slots|
    ensures SlotsAsCoded(slots, s, inodeBid) == Result(slots[s := 0])
      <==> inodeBid < |slots| && (slots[inodeBid] == 0 || inodeBid == s)
  {
    if inodeBid < |slots| {
      if slots[inodeBid] != 0 && inodeBid != s {
        assert slots[s := 0][inodeBid := 0][inodeBid] != slots[s := 0][inodeBid];
      } else {
        assert slots[s := 0][inodeBid := 0] == slots[s := 0];
      }
    }
  }

  // ---- rmdir does not look whether the directory is empty (451-453) ----

  /** With an exact freemap, removing a directory leaves it exact if and only if the directory was empty. */
  lemma RmdirExact(d: seq<Block>, t: Tree, r: map<nat, Role>, i: nat)
    requires Sound(d, t, r, {}) && i < |t.dirs|
    ensures |d| == BLOCKS && t.dirs[i].bid / 32 < |MapOf(d)| && LinkPast(t, i).0 < |d|
    ensures var d2 := ClearedImage(d, t.dirs[i].bid)[LinkPast(t, i).0 := LinkPast(t, i).1];
      SafeImage(d2) && (ExactMap(d2) <==> AllFree(t.dirs[i].slots))
  {
    hide Consistent, SafeImage, ExactMap, MapIs, LinkPast, Orphans, AllFree, ZeroTail;
    UnlinkDirSound(d, t, r, {}, i);
    var d2 := ClearedImage(d, t.dirs[i].bid)[LinkPast(t, i).0 := LinkPast(t, i).1];
    SoundIsExact(d2, RemovedDir(t, r, i), WithoutDir(r, t.dirs[i].bid, i), {} + Orphans(r, t.dirs[i].bid));
    OrphansOfEmpty(d, t, r, i);
  }

  // ---- the count of set entries in sfs_read (896-962) ----

  /**
   How the count of lines 918-942 ends: all entries asked for are set; or it
   stops at the end of the chain; or it never ends, at an entry that is not set.
   */
  datatype Count = Counted | Stopped | Spins

  /** The inner loop, from the given entry of a frame on. An unset entry moves neither counter. */
  function CountFrame(content: seq<nat>, at: nat, count: nat, blocks: nat): (n: Option<nat>)
    requires at <= |content|
    ensures n.Some? ==> n.value >= count && (at < |content| && count < blocks ==> n.value > count) && (count <= blocks ==> n.value <= blocks)
    decreases |content| - at
  {
    if at < |content| && count < blocks then
      if content[at] != 0 then CountFrame(content, at + 1, count + 1, blocks) else None
    else Some(count)
  }

  /** The entries of block 0, read as a frame: what is behind the magic number, which is its successor then, and zeros. */
  function SuperEntries(sb: Superblock): (content: seq<nat>)
    ensures |content| == FRAME_COUNT
  {
    [sb.nblocks, sb.nfreemapBlocks, sb.firstDir] + Zeros(FRAME_COUNT - 3)
  }

  /**
   The outer loop, from the given frame on. Behind the chain the successor is 0,
   and block 0 is taken for a frame; its padding is zero, so the count ends or
   spins there.
   */
  function CountFrom(file: FileNode, sb: Superblock, frame: nat, at: nat, count: nat, blocks: nat, frames: int): Count
    decreases |file.chain| - frame
  {
    if count >= blocks then Counted
    else if frame >= |file.chain| then
      if CountFrame(SuperEntries(sb), 0, count, blocks).Some? then Counted else Spins
    else
      var content := file.chain[frame].content;
      match CountFrame(content, if at < |content| then at else |content|, count, blocks)
      case None => Spins
      case Some(n) =>
        if frame + 1 == |file.chain| && n < frames then Stopped else CountFrom(file, sb, frame + 1, 0, n, blocks, frames)
  }

  function CountAsCoded(file: FileNode, sb: Superblock, cur: nat, length: nat): Count {
    CountFrom(file, sb, 0, cur / BLOCK_SIZE, 0, length / BLOCK_SIZE + 1, cur / FRAME_BYTES - (cur + length) / FRAME_BYTES + 1)
  }

  /** What sfs_read returns: the copy loop brings `remaining` down to 0, so it is the length asked for, whatever the count has found. */
  function ReturnAsCoded(file: FileNode, sb: Superblock, cur: nat, length: nat): Option<nat> {
    match CountAsCoded(file, sb, cur, length)
    case Counted => Some(length)
    case Stopped => Some(length)
    case Spins => None
  }

  /** How many bytes the copy loop goes through, which is also how far the cursor moves (945-957). */
  function CopiedAsCoded(file: FileNode, sb: Superblock, cur: nat, length: nat): Option<nat> {
    match CountAsCoded(file, sb, cur, length)
    case Counted => Some(length)
    case Stopped => Some(BLOCK_SIZE - cur % BLOCK_SIZE + length / BLOCK_SIZE * BLOCK_SIZE)
    case Spins => None
  }

  /** The superblock of a file system with a directory. */
  predicate InUse(sb: Superblock) {
    sb.nblocks != 0 && sb.nfreemapBlocks != 0 && sb.firstDir != 0
  }

  /** Where there is a file, there is a directory, and block 0 says so. */
  lemma SuperInUse(d: seq<Block>, t: Tree, r: map<nat, Role>, f: nat)
    requires Consistent(d, t, r) && f in t.files
    ensures |d| == BLOCKS && d[0] == SuperBlk(SuperOf(t)) && InUse(SuperOf(t))
  {
    hide Consistent, FilePlaced;
    LengthFact(d, t, r);
    SystemBlocks(d, t, r);
    BlockFacts(d, t, r, 0);
    FileFacts(d, t, r, f);
    BlockFacts(d, t, r, f);
    DirBlockFacts(d, t, r, 0);
  }

  /** The first entry that the count looks at: that of the cursor, if it is in the first frame, and else the first of the second frame. */
  function CountStart(cur: nat): nat {
    if cur / BLOCK_SIZE < FRAME_COUNT then cur / BLOCK_SIZE else FRAME_COUNT
  }

  /** All of the n entries from number a on are set. */
  predicate AllSet(file: FileNode, a: nat, n: nat) {
    forall k | a <= k < a + n :: SetAt(file, k)
  }

  predicate SetAt(file: FileNode, k: nat) {
    Entry(file, k) != 0
  }

  /** The cursor is behind the only frame, and the range in one frame's length. */
  predicate StopsAtOnce(file: FileNode, cur: nat, length: nat) {
    cur / BLOCK_SIZE >= FRAME_COUNT && |file.chain| == 1 && cur / FRAME_BYTES == (cur + length) / FRAME_BYTES
  }

  lemma {:induction false} FrameCounted(file: FileNode, frame: nat, at: nat, count: nat, blocks: nat)
    requires frame < |file.chain| && |file.chain[frame].content| == FRAME_COUNT && at <= FRAME_COUNT && count <= blocks
    ensures var n := Min(FRAME_COUNT - at, blocks - count);
      CountFrame(file.chain[frame].content, at, count, blocks)
        == if AllSet(file, FRAME_COUNT * frame + at, n) then Some(count + n) else None
    decreases FRAME_COUNT - at
  {
    hide Entry;
    var n := Min(FRAME_COUNT - at, blocks - count);
    if n > 0 {
      PlaceOf(file, frame, at);
      if SetAt(file, FRAME_COUNT * frame + at) {
        FrameCounted(file, frame, at + 1, count + 1, blocks);
        SetNext(file, FRAME_COUNT * frame + at, n);
      } else {
        assert !AllSet(file, FRAME_COUNT * frame + at, n);
      }
    }
  }

  lemma SetNext(file: FileNode, a: nat, n: nat)
    requires n > 0
    ensures AllSet(file, a, n) <==> SetAt(file, a) && AllSet(file, a + 1, n - 1)
  {
    hide SetAt;
    if SetAt(file, a) && AllSet(file, a + 1, n - 1) {
      forall k | a <= k < a + n
        ensures SetAt(file, k)
      {
      }
    }
  }

  lemma SetSplit(file: FileNode, a: nat, m: nat, n: nat)
    requires m <= n
    ensures AllSet(file, a, n) <==> AllSet(file, a, m) && AllSet(file, a + m, n - m)
  {
    hide SetAt;
    if AllSet(file, a, m) && AllSet(file, a + m, n - m) {
      forall k | a <= k < a + n
        ensures SetAt(file, k)
      {
        if k >= a + m {
          assert a + m <= k < a + m + (n - m);
        }
      }
    }
  }

  /** Block 0 has three entries to count. */
  lemma SuperCounted(sb: Superblock, count: nat, blocks: nat)
    requires InUse(sb) && count < blocks
    ensures CountFrame(SuperEntries(sb), 0, count, blocks) == if blocks <= count + 3 then Some(blocks) else None
  {
    var content := SuperEntries(sb);
    assert content[0] != 0 && content[1] != 0 && content[2] != 0 && content[3] == 0;
    assert CountFrame(content, 3, count + 3, blocks) == if blocks <= count + 3 then Some(count + 3) else None;
    assert CountFrame(content, 2, count + 2, blocks)
      == if blocks <= count + 2 then Some(count + 2) else if blocks == count + 3 then Some(blocks) else None;
    assert CountFrame(content, 1, count + 1, blocks)
      == if blocks == count + 1 then Some(blocks) else if blocks <= count + 3 then Some(blocks) else None;
  }

  /** All n entries from number a on that are in the chain are set, and no more than three are behind it. */
  predicate Countable(file: FileNode, a: nat, n: nat) {
    var m := InChain(file, a, n);
    AllSet(file, a, m) && n <= m + 3
  }

  /** From the second frame on, or once an entry is counted, the count ends exactly if the entries are countable. */
  lemma {:induction false} CountEnds(file: FileNode, sb: Superblock, frame: nat, at: nat, count: nat, blocks: nat, frames: int)
    requires FullRows(file) && InUse(sb) && at < FRAME_COUNT && (frame >= |file.chain| ==> at == 0) && count < blocks && frames <= 1
    ensures CountFrom(file, sb, frame, at, count, blocks, frames) == Counted <==> Countable(file, FRAME_COUNT * frame + at, blocks - count)
    ensures CountFrom(file, sb, frame, at, count, blocks, frames) != Stopped
    decreases |file.chain| - frame
  {
    hide Entry, SetAt, AllSet, InUse, SuperEntries, CountFrame;
    var a, n := FRAME_COUNT * frame + at, blocks - count;
    if frame >= |file.chain| {
      SuperCounted(sb, count, blocks);
      NoneUnset(file, a);
    } else {
      var m := Min(FRAME_COUNT - at, n);
      FrameCounted(file, frame, at, count, blocks);
      SetSplit(file, a, m, InChain(file, a, n));
      if m < n {
        CountEnds(file, sb, frame + 1, 0, count + m, blocks, frames);
      } else {
        NoneUnset(file, a + m);
      }
    }
  }

  lemma NoneUnset(file: FileNode, a: nat)
    ensures AllSet(file, a, 0)
  {
  }

  /** sfs_read as written ends exactly if the entries that its count asks for are countable, or if it stops at once. */
  lemma ReadEnds(file: FileNode, sb: Superblock, cur: nat, length: nat)
    requires FullRows(file) && file.chain != [] && InUse(sb)
    ensures ReturnAsCoded(file, sb, cur, length).Some?
      <==> Countable(file, CountStart(cur), length / BLOCK_SIZE + 1) || StopsAtOnce(file, cur, length)
    ensures CountAsCoded(file, sb, cur, length) == Stopped <==> StopsAtOnce(file, cur, length)
  {
    hide Entry, SetAt, AllSet, InUse, Countable, SuperEntries, CountFrame;
    var blocks, frames := length / BLOCK_SIZE + 1, cur / FRAME_BYTES - (cur + length) / FRAME_BYTES + 1;
    FewFrames(cur, length);
    if cur / BLOCK_SIZE < FRAME_COUNT {
      CountEnds(file, sb, 0, cur / BLOCK_SIZE, 0, blocks, frames);
    } else {
      FrameCounted(file, 0, FRAME_COUNT, 0, blocks);
      NoneUnset(file, FRAME_COUNT);
      CountEnds(file, sb, 1, 0, 0, blocks, frames);
    }
  }

  lemma FewFrames(cur: nat, length: nat)
    ensures cur / FRAME_BYTES <= (cur + length) / FRAME_BYTES
  {
  }

  /**
   sfs_read as written returns the number of bytes up to the end of the file, as
   its comment says, exactly if its count ends and the range lies inside the file.
   */
  lemma ReadTruncates(file: FileNode, sb: Superblock, cur: nat, length: nat)
    requires FullRows(file) && file.chain != [] && InUse(sb)
    ensures ReturnAsCoded(file, sb, cur, length) == Some(ReadLength(file.size, cur, length))
      <==> ((Countable(file, CountStart(cur), length / BLOCK_SIZE + 1) || StopsAtOnce(file, cur, length))
        && (length == 0 || cur + length <= file.size))
  {
    hide CountAsCoded, Countable, StopsAtOnce, FullRows, InUse;
    ReadEnds(file, sb, cur, length);
  }

  /**
   When it ends, it copies as many bytes as it returns, and moves the cursor by as
   many, exactly if it does not stop at once or the two rests make up a block; it
   copies no more than the buffer holds exactly if they make up a block or more.
   */
  lemma ReadCopies(file: FileNode, sb: Superblock, cur: nat, length: nat)
    requires FullRows(file) && file.chain != [] && InUse(sb) && ReturnAsCoded(file, sb, cur, length).Some?
    ensures CopiedAsCoded(file, sb, cur, length) == ReturnAsCoded(file, sb, cur, length)
      <==> !StopsAtOnce(file, cur, length) || cur % BLOCK_SIZE + length % BLOCK_SIZE == BLOCK_SIZE
    ensures CopiedAsCoded(file, sb, cur, length).Some?
      && (CopiedAsCoded(file, sb, cur, length).value <= length
        <==> !StopsAtOnce(file, cur, length) || cur % BLOCK_SIZE + length % BLOCK_SIZE >= BLOCK_SIZE)
  {
    hide CountAsCoded, StopsAtOnce, FullRows, InUse;
    ReadEnds(file, sb, cur, length);
  }

  /** A file of whole frames with no entry unset is read as a whole: the entry behind the chain is found in block 0. */
  lemma WholeFramesRead(file: FileNode, sb: Superblock)
    requires FullRows(file) && file.chain != [] && InUse(sb) && file.size == FRAME_BYTES * |file.chain|
    requires AllSet(file, 0, FRAME_COUNT * |file.chain|)
    ensures ReturnAsCoded(file, sb, 0, file.size) == Some(file.size)
  {
    hide AllSet, CountAsCoded, InUse;
    assert file.size / BLOCK_SIZE == FRAME_COUNT * |file.chain|;
    assert InChain(file, 0, file.size / BLOCK_SIZE + 1) == FRAME_COUNT * |file.chain|;
    ReadEnds(file, sb, 0, file.size);
  }

  /** From a new file, reads of less than a block return their length, and all others never end. */
  lemma NewFileRead(file: FileNode, sb: Superblock, length: nat)
    requires JustCreated(file)
    ensures CountAsCoded(file, sb, 0, length) == if length < BLOCK_SIZE then Counted else Spins
    ensures ReturnAsCoded(file, sb, 0, length) == (if length < BLOCK_SIZE then Some(length) else None) && ReadLength(file.size, 0, length) == 0
  {
    hide Entry, AllSet;
    var blocks, frames := length / BLOCK_SIZE + 1, 0 / FRAME_BYTES - (0 + length) / FRAME_BYTES + 1;
    CountOne(file.chain[0].content, blocks);
    FewFrames(0, length);
    assert CountFrom(file, sb, 1, 0, 1, 1, frames) == Counted;
  }

  lemma CountOne(content: seq<nat>, blocks: nat)
    requires |content| == FRAME_COUNT && content[0] != 0 && content[1] == 0 && blocks > 0
    ensures CountFrame(content, 0, 0, blocks) == if blocks == 1 then Some(1) else None
  {
    assert CountFrame(content, 1, 1, blocks) == if blocks == 1 then Some(1) else None;
  }

  // ---- the first directory of a file system that is not mounted (393-428) ----

  /**
   The image after the first sfs_mkdir in an empty file system, with the superblock
   that is in memory: without freemap blocks the allocator gives 0, so the
   superblock and then the directory are written to block 0.
   */
  function FirstDirImage(d: seq<Block>, sb: Superblock, b: nat, name: string): seq<Block>
    requires |d| == BLOCKS && b < BLOCKS && b / 32 < |MapOf(d)|
  {
    if sb.nfreemapBlocks == 0 then d[0 := SuperBlk(sb.(firstDir := 0))][0 := DirBlk(0, name, Zeros(NINODES))]
    else MarkedImage(d, b)[b := ZERO_BLOCK][0 := SuperBlk(sb.(firstDir := b))][b := DirBlk(0, name, Zeros(NINODES))]
  }

  /** The directory is in the file system exactly if the superblock was loaded. */
  lemma FirstDirectory(d: seq<Block>, r: map<nat, Role>, sb: Superblock, b: nat, name: string)
    requires Sound(d, Tree([], map[]), r, {}) && IsLeastFree(MapOf(d), b)
    requires sb == SuperOf(Tree([], map[])) || sb == Superblock(0, 0, 0, 0)
    ensures |d| == BLOCKS && b < BLOCKS && b / 32 < |MapOf(d)|
    ensures (exists t, r2 :: Consistent(FirstDirImage(d, sb, b, name), t, r2) && HasDir(t, name)) <==> sb == SuperOf(Tree([], map[]))
  {
    hide Consistent, Marked, ZeroTail;
    SoundFacts(d, Tree([], map[]), r, {});
    var d2 := FirstDirImage(d, sb, b, name);
    if sb.nfreemapBlocks == 0 {
      forall t, r2 | Consistent(d2, t, r2)
        ensures false
      {
        SystemBlocks(d2, t, r2);
        BlockFacts(d2, t, r2, 0);
      }
    } else {
      FirstDirMade(d, r, b, name);
    }
  }

  lemma FirstDirMade(d: seq<Block>, r: map<nat, Role>, b: nat, name: string)
    requires Sound(d, Tree([], map[]), r, {}) && IsLeastFree(MapOf(d), b)
    requires |d| == BLOCKS && b < BLOCKS && b / 32 < |MapOf(d)|
    ensures exists t, r2 :: Consistent(FirstDirImage(d, SuperOf(Tree([], map[])), b, name), t, r2) && HasDir(t, name)
  {
    hide Consistent, Marked, ZeroTail, MapIs, SafeImage, KeepsFiles, SetMark;
    var t0 := Tree([], map[]);
    SoundFacts(d, t0, r, {});
    AllocSound(d, t0, r, {}, b);
    var d1 := MarkedImage(d, b)[b := ZERO_BLOCK];
    AppendDirSound(d1, t0, r, {} + {b}, b);
    var d2 := d1[LinkToDir(t0, b).0 := LinkToDir(t0, b).1];
    var t1, r1 := AppendedDirs(t0, b), r[b := RDir(0)];
    assert {} + {b} - {b} == {};
    NameDirSound(d2, t1, r1, {} + {b} - {b}, 0, name);
    var d3 := d2[b := DirImage(t1, 0, name, t1.dirs[0].slots)];
    assert Consistent(d3, NamedDir(t1, 0, name), r1);
    assert d3 == FirstDirImage(d, SuperOf(t0), b, name);
    assert HasDir(NamedDir(t1, 0, name), name);
  }

  // ---- the scan of 512 words (63) ----

  /** The scan of the freemap as written: the first word with an unset bit, or beyond the words there are. */
  function ScanAsCoded(words: seq<bv32>, i: nat): Outcome<nat>
    decreases BLOCK_SIZE - i
  {
    if i >= BLOCK_SIZE || i >= |words| then OutOfBounds
    else if !IsAllOnes(words[i]) then Result(i)
    else ScanAsCoded(words, i + 1)
  }

  /** It stays within the freemap block exactly if some block is free. */
  lemma ScanExact(words: seq<bv32>)
    requires |words| == WORDS
    ensures ScanAsCoded(words, 0).Result? <==> FreeCount(words) > 0
  {
    hide FreeCount, Marked, IsAllOnes;
    FreeCountPositive(words);
    ScanFrom(words, 0);
  }

  lemma {:induction false} ScanFrom(words: seq<bv32>, i: nat)
    requires |words| == WORDS && i <= WORDS
    requires forall b: nat | b < 32 * i :: Marked(words, b)
    ensures ScanAsCoded(words, i).Result? <==> exists b: nat :: b < 32 * WORDS && !Marked(words, b)
    decreases WORDS - i
  {
    hide Marked, IsAllOnes;
    if i < WORDS {
      if IsAllOnes(words[i]) {
        OnesMarked(words, i);
        ScanFrom(words, i + 1);
      } else {
        SomeUnset(words, i);
      }
    }
  }

  lemma SomeUnset(words: seq<bv32>, i: nat)
    requires i < |words| && !IsAllOnes(words[i])
    ensures exists b: nat :: b < 32 * |words| && !Marked(words, b)
  {
    hide IsAllOnes, Bit;
    if forall k | 0 <= k < 32 :: Bit(words[i], k) {
      AllBits(words[i]);
    }
    var k :| 0 <= k < 32 && !Bit(words[i], k);
    var b := 32 * i + k;
    assert b / 32 == i && b % 32 == k;
    assert !Marked(words, b);
  }

  // ---- the end of a file (1039-1050) ----

  /** sfs_eof as written: the cursor lies beyond the end. */
  predicate EofAsCoded(size: nat, cur: nat) {
    cur > size
  }

  /** Nothing is left to read: no read of any length gives a byte. */
  ghost predicate NothingLeft(s: seq<byte>, cur: nat) {
    forall n: nat :: ReadAt(s, cur, n) == []
  }

  /** sfs_eof tells whether there is nothing left exactly when the cursor is not just at the end. */
  lemma EofExact(s: seq<byte>, cur: nat)
    ensures (EofAsCoded(|s|, cur) <==> NothingLeft(s, cur)) <==> cur != |s|
  {
    if cur < |s| {
      assert |ReadAt(s, cur, 1)| == 1;
    }
  }

  /** Reading alone never takes the cursor from inside a file to where sfs_eof answers yes. */
  lemma ReadingNeverEnds(s: seq<byte>, cur: nat, n: nat)
    requires cur <= |s|
    ensures !EofAsCoded(|s|, cur + ReadLength(|s|, cur, n))
  {
  }
}
