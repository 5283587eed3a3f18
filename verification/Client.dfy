/** The client: files are cut into blocks, sent, fetched and put together again. */
module Client {
  import opened Common
  import opened NameNode
  import opened Wire

  /** A file whose read position moves on. */
  class LocalFile {
    const data: seq<byte>
    var pos: nat

    constructor (data: seq<byte>)
      ensures this.data == data && pos == 0
    {
      this.data := data;
      pos := 0;
    }

    /** fread of one block; what is missing at the end of the file is zero. */
    method ReadPiece() returns (piece: seq<byte>)
      modifies this
      ensures piece == PieceAt(data, old(pos))
      ensures pos == old(pos) + DFS_BLOCK_SIZE
    {
      piece := PieceAt(data, pos);
      pos := pos + DFS_BLOCK_SIZE;
    }
  }

  /** The packets for n blocks from block first on, with the file's bytes from position pos on. */
  ghost function Packets(img: FileImage, data: seq<byte>, first: nat, pos: nat, n: nat): (s: seq<Packet>)
    requires first + n <= |img.blockList|
    ensures |s| == n
    ensures forall i | 0 <= i < n :: s[i] == CreatePacket(img.blockList[first + i], PieceAt(data, pos + i * DFS_BLOCK_SIZE))
  {
    seq(n, i requires 0 <= i < n => CreatePacket(img.blockList[first + i], PieceAt(data, pos + i * DFS_BLOCK_SIZE)))
  }

  /** push_file, given the name node's answer: block i of the file goes where entry i says. */
  method PushFile(img: FileImage, data: seq<byte>) returns (sent: seq<Packet>)
    requires img.blocknum <= |img.blockList|
    ensures sent == Packets(img, data, 0, 0, img.blocknum)
  {
    var file := new LocalFile(data);
    sent := [];
    var count := 0;
    while count < img.blocknum
      invariant count <= img.blocknum && file.pos == count * DFS_BLOCK_SIZE && file.data == data && fresh(file)
      invariant sent == Packets(img, data, 0, 0, count)
    {
      var piece := file.ReadPiece();
      sent := sent + [CreatePacket(img.blockList[count], piece)];
      count := count + 1;
    }
  }

  /** modify_file, given the name node's answer, with the block index moving on. */
  method ModifyFile(img: FileImage, data: seq<byte>, startAddr: nat, endAddr: nat) returns (sent: seq<Packet>)
    requires startAddr <= endAddr && endAddr / DFS_BLOCK_SIZE < |img.blockList|
    ensures sent == Packets(img, data, startAddr / DFS_BLOCK_SIZE, startAddr, endAddr / DFS_BLOCK_SIZE - startAddr / DFS_BLOCK_SIZE + 1)
  {
    var file := new LocalFile(data);
    var startIndex, endIndex := startAddr / DFS_BLOCK_SIZE, endAddr / DFS_BLOCK_SIZE;
    var blocks := endIndex - startIndex + 1;
    file.pos := startAddr;
    sent := [];
    var index, count := startIndex, 0;
    while count < blocks
      invariant count <= blocks && index == startIndex + count
      invariant file.pos == startAddr + count * DFS_BLOCK_SIZE && file.data == data && fresh(file)
      invariant sent == Packets(img, data, startIndex, startAddr, count)
    {
      var piece := file.ReadPiece();
      sent := sent + [CreatePacket(img.blockList[index], piece)];
      index := index + 1;
      count := count + 1;
    }
  }

  /** Blocks put one behind the other. */
  function Join(blocks: seq<seq<byte>>): seq<byte> {
    if blocks == [] then [] else Join(blocks[..|blocks| - 1]) + blocks[|blocks| - 1]
  }

  /** pull_file, given the name node's answer: ask stands for the datanodes' answers to a read. */
  method PullFile(img: FileImage, ask: BlockDesc -> seq<byte>) returns (file: seq<byte>)
    requires img.blocknum <= |img.blockList|
    ensures file == Join(seq(img.blocknum, i requires 0 <= i < img.blocknum => ask(img.blockList[i])))
  {
    var blocks: seq<seq<byte>> := [];
    var count := 0;
    while count < img.blocknum
      invariant count <= img.blocknum
      invariant |blocks| == count && forall i | 0 <= i < count :: blocks[i] == ask(img.blockList[i])
    {
      blocks := blocks + [ask(img.blockList[count])];
      count := count + 1;
    }
    file := [];
    count := 0;
    while count < img.blocknum
      invariant count <= img.blocknum && file == Join(blocks[..count])
    {
      file := file + blocks[count];
      assert blocks[..count + 1][..count] == blocks[..count];
      count := count + 1;
    }
    assert blocks[..count] == blocks;
    assert blocks == seq(img.blocknum, i requires 0 <= i < img.blocknum => ask(img.blockList[i]));
  }

  /** Whole blocks that are the pieces of a file make it up when joined. */
  lemma {:induction false} JoinPieces(blocks: seq<seq<byte>>, p: seq<byte>)
    requires |p| == |blocks| * DFS_BLOCK_SIZE
    requires forall i | 0 <= i < |blocks| :: blocks[i] == PieceAt(p, i * DFS_BLOCK_SIZE)
    ensures Join(blocks) == p
    decreases |blocks|
  {
    if blocks != [] {
      var n := |blocks| - 1;
      var q := p[..n * DFS_BLOCK_SIZE];
      forall i | 0 <= i < n
        ensures blocks[..n][i] == PieceAt(q, i * DFS_BLOCK_SIZE)
      {
        SamePiece(p, q, i);
      }
      JoinPieces(blocks[..n], q);
      assert p == q + blocks[n];
    }
  }

  lemma SamePiece(p: seq<byte>, q: seq<byte>, i: nat)
    requires |q| <= |p| && (i + 1) * DFS_BLOCK_SIZE <= |q| && q == p[..|q|]
    ensures PieceAt(p, i * DFS_BLOCK_SIZE) == PieceAt(q, i * DFS_BLOCK_SIZE)
  {
  }

  /** The pieces of a file are those of the file filled up to whole blocks. */
  lemma PaddedPiece(data: seq<byte>, i: nat)
    requires i < BlockCount(|data|)
    ensures PieceAt(Padded(data), i * DFS_BLOCK_SIZE) == PieceAt(data, i * DFS_BLOCK_SIZE)
  {
    var p := Padded(data);
    assert (i + 1) * DFS_BLOCK_SIZE <= |p|;
    forall k | 0 <= k < DFS_BLOCK_SIZE
      ensures PieceAt(p, i * DFS_BLOCK_SIZE)[k] == PieceAt(data, i * DFS_BLOCK_SIZE)[k]
    {
      var x := i * DFS_BLOCK_SIZE + k;
      assert p[x] == ByteAt(data, x);
    }
  }

  // ---- modification ----

  /**
   A file of whole blocks after a modification that sends data from startAddr on
   to the blocks from startAddr to endAddr and leaves the file n blocks long.
   */
  function Modified(p: seq<byte>, data: seq<byte>, startAddr: nat, endAddr: nat, n: nat): (q: seq<byte>)
    ensures |q| == n * DFS_BLOCK_SIZE
    ensures forall x | 0 <= x < |q| :: q[x] == ModifiedByte(p, data, startAddr, endAddr, x)
  {
    seq(n * DFS_BLOCK_SIZE, (x: nat) => ModifiedByte(p, data, startAddr, endAddr, x))
  }

  function ModifiedByte(p: seq<byte>, data: seq<byte>, startAddr: nat, endAddr: nat, x: nat): byte {
    if startAddr / DFS_BLOCK_SIZE <= x / DFS_BLOCK_SIZE <= endAddr / DFS_BLOCK_SIZE
    then ByteAt(data, startAddr % DFS_BLOCK_SIZE + x)
    else ByteAt(p, x)
  }

  /** The blocks of a modified file. */
  lemma ModifiedPiece(p: seq<byte>, data: seq<byte>, startAddr: nat, endAddr: nat, n: nat, i: nat)
    requires i < n
    ensures PieceAt(Modified(p, data, startAddr, endAddr, n), i * DFS_BLOCK_SIZE)
      == if startAddr / DFS_BLOCK_SIZE <= i <= endAddr / DFS_BLOCK_SIZE
        then PieceAt(data, startAddr + (i - startAddr / DFS_BLOCK_SIZE) * DFS_BLOCK_SIZE)
        else PieceAt(p, i * DFS_BLOCK_SIZE)
  {
    var q := Modified(p, data, startAddr, endAddr, n);
    assert (i + 1) * DFS_BLOCK_SIZE <= |q|;
    forall k | 0 <= k < DFS_BLOCK_SIZE
      ensures PieceAt(q, i * DFS_BLOCK_SIZE)[k] == ModifiedByte(p, data, startAddr, endAddr, i * DFS_BLOCK_SIZE + k)
      ensures (i * DFS_BLOCK_SIZE + k) / DFS_BLOCK_SIZE == i
    {
      assert q[i * DFS_BLOCK_SIZE + k] == ModifiedByte(p, data, startAddr, endAddr, i * DFS_BLOCK_SIZE + k);
    }
  }

  /**
   Modifying a pushed file is pushing the new one, if the modification begins at
   a block, the contents agree outside of it, and all new blocks lie in it.
   */
  lemma ModifyingIsPushing(old1: seq<byte>, data: seq<byte>, startAddr: nat, endAddr: nat)
    requires startAddr % DFS_BLOCK_SIZE == 0 && startAddr <= endAddr && |old1| <= |data|
    requires BlockCount(|old1|) < BlockCount(|data|) ==> startAddr / DFS_BLOCK_SIZE <= BlockCount(|old1|) && BlockCount(|data|) <= endAddr / DFS_BLOCK_SIZE + 1
    requires forall x: nat | x < startAddr || x / DFS_BLOCK_SIZE > endAddr / DFS_BLOCK_SIZE :: ByteAt(data, x) == ByteAt(old1, x)
    ensures Modified(Padded(old1), data, startAddr, endAddr, BlockCount(|data|)) == Padded(data)
  {
    var n := BlockCount(|data|);
    var p, q := Padded(old1), Modified(Padded(old1), data, startAddr, endAddr, n);
    forall x | 0 <= x < n * DFS_BLOCK_SIZE
      ensures q[x] == Padded(data)[x]
    {
      assert q[x] == ModifiedByte(p, data, startAddr, endAddr, x);
      if x / DFS_BLOCK_SIZE < startAddr / DFS_BLOCK_SIZE || x / DFS_BLOCK_SIZE > endAddr / DFS_BLOCK_SIZE {
        assert ByteAt(p, x) == ByteAt(old1, x) by {
          if x < |p| { assert p[x] == ByteAt(old1, x); }
        }
      }
    }
  }
}
