/** A datanode: it stores blocks in its file system and answers with them. */
module DataNode {
  import opened Bits
  import opened BlockStore
  import opened Common
  import opened Layout
  import Wire

  class Service {
    const datanodeId: nat
    const store: Store

    /** The blocks that are stored. */
    ghost function Blocks(): map<Key, seq<Wire.byte>>
      reads store
    {
      store.blocks
    }

    ghost predicate Valid()
      reads store, store.shell, store.shell.fs, store.shell.fs.disk, store.shell.fs.freemap, store.shell.fs.fdtable
    {
      store.Valid()
    }

    constructor (id: nat)
      ensures Valid() && datanodeId == id && Blocks() == map[]
      ensures fresh(store) && fresh(store.shell) && fresh(store.shell.fs) && fresh(store.shell.fs.disk)
      ensures fresh(store.shell.fs.freemap) && fresh(store.shell.fs.fdtable)
    {
      hide Store.Valid;
      datanodeId := id;
      var made := new Store();
      store := made;
    }

    /** create_block. */
    method CreateBlock(packet: Wire.Packet)
      requires Valid() && packet.CreatePacket? && Admitted(Blocks(), packet)
      modifies store, store.shell, store.shell.fs, store.shell.fs.disk, store.shell.fs.freemap, store.shell.fs.fdtable
      ensures Valid() && Blocks() == Wire.Handled(old(Blocks()), packet)
      ensures Blocks() == old(Blocks())[(packet.block.owner, packet.block.blockId) := packet.content]
    {
      hide Store.Valid;
      store.WriteBlock(packet.block.owner, packet.block.blockId, packet.content);
    }

    /** read_block, answering with a whole block. */
    method ReadBlock(packet: Wire.Packet) returns (content: seq<Wire.byte>)
      requires Valid() && packet.ReadPacket? && Admitted(Blocks(), packet)
      modifies store, store.shell, store.shell.fs, store.shell.fs.disk, store.shell.fs.freemap, store.shell.fs.fdtable
      ensures Valid() && Blocks() == Wire.Handled(old(Blocks()), packet)
      ensures content == Wire.Answer(old(Blocks()), packet.block)
      ensures var key := (packet.block.owner, packet.block.blockId);
        && |content| == DFS_BLOCK_SIZE
        && (key in old(Blocks()) ==> Blocks() == old(Blocks()) && (|old(Blocks())[key]| == DFS_BLOCK_SIZE ==> content == old(Blocks())[key]))
        && (key !in old(Blocks()) ==> Blocks() == old(Blocks())[key := []] && forall k | 0 <= k < |content| :: content[k] == 0)
    {
      hide Store.Valid;
      var buf := store.ReadBlock(packet.block.owner, packet.block.blockId);
      content := Wire.PieceAt(buf, 0);
    }

    /** requests_dispatcher. */
    method RequestsDispatcher(packet: Wire.Packet) returns (content: seq<Wire.byte>)
      requires Valid() && Admitted(Blocks(), packet)
      modifies store, store.shell, store.shell.fs, store.shell.fs.disk, store.shell.fs.freemap, store.shell.fs.fdtable
      ensures Valid() && Blocks() == Wire.Handled(old(Blocks()), packet)
      ensures packet.ReadPacket? ==> content == Wire.Answer(old(Blocks()), packet.block)
      ensures packet.CreatePacket? ==> Blocks() == old(Blocks())[(packet.block.owner, packet.block.blockId) := packet.content]
      ensures var key := (packet.block.owner, packet.block.blockId); packet.ReadPacket? ==>
        && |content| == DFS_BLOCK_SIZE
        && (key in old(Blocks()) ==> Blocks() == old(Blocks()) && (|old(Blocks())[key]| == DFS_BLOCK_SIZE ==> content == old(Blocks())[key]))
        && (key !in old(Blocks()) ==> Blocks() == old(Blocks())[key := []] && forall k | 0 <= k < |content| :: content[k] == 0)
    {
      hide Store.Valid;
      content := [];
      match packet
      case ReadPacket(_) => content := ReadBlock(packet);
      case CreatePacket(_, _) => CreateBlock(packet);
    }

    /** The main loop: packet after packet, as they come. */
    method ServeAll(packets: seq<Wire.Packet>) returns (answers: seq<seq<Wire.byte>>)
      requires Valid() && AllAdmitted(Blocks(), packets)
      modifies store, store.shell, store.shell.fs, store.shell.fs.disk, store.shell.fs.freemap, store.shell.fs.fdtable
      ensures Valid() && Blocks() == Wire.HandledAll(old(Blocks()), packets)
      ensures |answers| == |packets|
      ensures forall i | 0 <= i < |packets| && packets[i].ReadPacket? ::
        answers[i] == Wire.Answer(Wire.HandledAll(old(Blocks()), packets[..i]), packets[i].block)
    {
      hide Store.Valid, Admitted, Wire.Answer, Wire.Handled;
      answers := [];
      var i := 0;
      while i < |packets|
        invariant 0 <= i <= |packets| && |answers| == i && Valid()
        invariant Blocks() == Wire.HandledAll(old(Blocks()), packets[..i])
        invariant forall k | 0 <= k < i && packets[k].ReadPacket? ::
          answers[k] == Wire.Answer(Wire.HandledAll(old(Blocks()), packets[..k]), packets[k].block)
      {
        var answer := RequestsDispatcher(packets[i]);
        answers := answers + [answer];
        assert packets[..i + 1][..i] == packets[..i];
        i := i + 1;
      }
      assert packets[..i] == packets;
    }
  }

  // ---- what a datanode can serve ----

  /** A block can be written or asked for while the directory has a slot for it, and asked for once some block was written. */
  ghost predicate Admitted(blocks: map<Key, seq<Wire.byte>>, packet: Wire.Packet) {
    && (Wire.KeyOf(packet.block) in blocks || |blocks| < NINODES)
    && match packet
      case CreatePacket(_, content) => |content| == DFS_BLOCK_SIZE
      case ReadPacket(_) => blocks != map[]
  }

  ghost predicate AllAdmitted(blocks: map<Key, seq<Wire.byte>>, packets: seq<Wire.Packet>) {
    forall i | 0 <= i < |packets| :: Admitted(Wire.HandledAll(blocks, packets[..i]), packets[i])
  }

  function KeysOf(packets: seq<Wire.Packet>): set<Key> {
    set i | 0 <= i < |packets| :: Wire.KeyOf(packets[i].block)
  }

  /** A new datanode can serve all packets that begin with a write, carry whole blocks, and are about at most 97 blocks. */
  lemma FewBlocks(packets: seq<Wire.Packet>)
    requires packets != [] ==> packets[0].CreatePacket?
    requires forall i | 0 <= i < |packets| && packets[i].CreatePacket? :: |packets[i].content| == DFS_BLOCK_SIZE
    requires |KeysOf(packets)| <= NINODES
    ensures AllAdmitted(map[], packets)
  {
    hide Wire.HandledAll, KeysOf;
    forall i | 0 <= i < |packets|
      ensures Admitted(Wire.HandledAll(map[], packets[..i]), packets[i])
    {
      HandledKeys(packets, i);
      var blocks := Wire.HandledAll(map[], packets[..i]);
      KeyWithin(packets, i);
      if Wire.KeyOf(packets[i].block) !in blocks {
        Subset(blocks.Keys + {Wire.KeyOf(packets[i].block)}, KeysOf(packets));
      }
    }
  }

  lemma KeyWithin(packets: seq<Wire.Packet>, i: nat)
    requires i < |packets|
    ensures Wire.KeyOf(packets[i].block) in KeysOf(packets)
  {
  }

  /** The stored blocks are those that the packets were about. */
  lemma {:induction false} HandledKeys(packets: seq<Wire.Packet>, i: nat)
    requires i <= |packets|
    ensures Wire.HandledAll(map[], packets[..i]).Keys <= KeysOf(packets)
    ensures i > 0 ==> Wire.HandledAll(map[], packets[..i]) != map[]
    decreases i
  {
    hide KeysOf;
    if i > 0 {
      HandledKeys(packets, i - 1);
      KeyWithin(packets, i - 1);
      assert packets[..i][..i - 1] == packets[..i - 1];
      var before := Wire.HandledAll(map[], packets[..i - 1]);
      assert Wire.KeyOf(packets[i - 1].block) in Wire.Handled(before, packets[i - 1]);
    }
  }
}
