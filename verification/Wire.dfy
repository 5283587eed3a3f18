/** What clients and datanodes exchange: whole blocks of files, and what a datanode does with them. */
module Wire {
  import opened Common
  import Layout
  import opened NameNode

  type byte = Layout.byte

  /** A request to a datanode: the block it is about and, to create it, its content. */
  datatype Packet = ReadPacket(block: BlockDesc) | CreatePacket(block: BlockDesc, content: seq<byte>)

  /** Byte x of a file, and zero behind its end. */
  function ByteAt(data: seq<byte>, x: nat): byte {
    if x < |data| then data[x] else 0
  }

  /** The block's worth of bytes from position pos on, filled up with zeros. */
  function PieceAt(data: seq<byte>, pos: nat): (piece: seq<byte>)
    ensures |piece| == DFS_BLOCK_SIZE
    ensures forall k | 0 <= k < DFS_BLOCK_SIZE :: piece[k] == ByteAt(data, pos + k)
  {
    seq(DFS_BLOCK_SIZE, (k: nat) => ByteAt(data, pos + k))
  }

  /** A file filled up with zeros to whole blocks. */
  function Padded(data: seq<byte>): (p: seq<byte>)
    ensures |p| == BlockCount(|data|) * DFS_BLOCK_SIZE
    ensures forall x | 0 <= x < |p| :: p[x] == ByteAt(data, x)
    ensures p[..|data|] == data
    ensures |data| % DFS_BLOCK_SIZE == 0 ==> p == data
  {
    data + seq(BlockCount(|data|) * DFS_BLOCK_SIZE - |data|, (k: nat) => 0)
  }

  function KeyOf(block: BlockDesc): Key {
    (block.owner, block.blockId)
  }

  /** The blocks a datanode stores after a packet; asking for a block it has not got leaves an empty one. */
  function Handled(blocks: map<Key, seq<byte>>, packet: Packet): map<Key, seq<byte>> {
    match packet
    case CreatePacket(block, content) => blocks[KeyOf(block) := content]
    case ReadPacket(block) => if KeyOf(block) in blocks then blocks else blocks[KeyOf(block) := []]
  }

  /** The blocks after a series of packets. */
  function HandledAll(blocks: map<Key, seq<byte>>, packets: seq<Packet>): map<Key, seq<byte>> {
    if packets == [] then blocks
    else Handled(HandledAll(blocks, packets[..|packets| - 1]), packets[|packets| - 1])
  }

  /** The content a datanode answers a read with. */
  function Answer(blocks: map<Key, seq<byte>>, block: BlockDesc): (content: seq<byte>)
    ensures |content| == DFS_BLOCK_SIZE
    ensures KeyOf(block) in blocks && |blocks[KeyOf(block)]| == DFS_BLOCK_SIZE ==> content == blocks[KeyOf(block)]
  {
    PieceAt(if KeyOf(block) in blocks then blocks[KeyOf(block)] else [], 0)
  }
}
