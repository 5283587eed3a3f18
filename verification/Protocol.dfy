/** The distributed file system: name node, datanodes and the blocks on their way, as a state machine. */
module Protocol {
  import opened Client
  import opened Common
  import opened NameNode
  import opened RoundRobin
  import opened Wire

  datatype State = State(reg: Registry, images: Images, stores: seq<map<Key, seq<byte>>>, flights: multiset<Packet>)

  datatype Step =
    | Register(id: nat, ip: string, port: int)
    | Push(name: string, data: seq<byte>)
    | Modify(name: string, data: seq<byte>, size: nat, startAddr: nat, endAddr: nat)
    | Deliver(packet: Packet)
    | Fetch(block: BlockDesc)

  ghost predicate Init(s: State) {
    && IsRegistry(s.reg) && (forall k | 0 <= k < MAX_DATANODE_NUM :: s.reg[k].None?)
    && |s.images| == MAX_FILE_COUNT && (forall k | 0 <= k < MAX_FILE_COUNT :: s.images[k].None?)
    && |s.stores| == MAX_DATANODE_NUM && (forall k | 0 <= k < MAX_DATANODE_NUM :: s.stores[k] == map[])
    && s.flights == multiset{}
  }

  ghost predicate Shaped(s: State) {
    TableOk(s.reg, s.images) && |s.stores| == MAX_DATANODE_NUM
  }

  predicate HasHome(block: BlockDesc) {
    1 <= block.dnId <= MAX_DATANODE_NUM
  }

  /** The datanode of a block serves a packet. */
  function Served(s: State, packet: Packet): State
    requires |s.stores| == MAX_DATANODE_NUM && HasHome(packet.block)
  {
    var k := packet.block.dnId - 1;
    s.(stores := s.stores[k := Handled(s.stores[k], packet)])
  }

  /** The name node serves a request, and the packets of the answer set out. */
  ghost predicate SendStep(s: State, req: Request, t: State, packets: FileImage -> seq<Packet>)
    requires Shaped(s)
  {
    && InService(s.reg) && Fits(s.images, req)
    && match Serve(s.reg, s.images, req).1
      case FileResponse(img) =>
        t == s.(images := Serve(s.reg, s.images, req).0, flights := s.flights + multiset(packets(img)))
      case _ => t == s
  }

  /** The number of blocks a modification sends. */
  function Span(startAddr: nat, endAddr: nat): nat
    requires startAddr <= endAddr
  {
    endAddr / DFS_BLOCK_SIZE - startAddr / DFS_BLOCK_SIZE + 1
  }

  ghost function PushPackets(data: seq<byte>): FileImage -> seq<Packet> {
    (img: FileImage) => if img.blocknum <= |img.blockList| then Packets(img, data, 0, 0, img.blocknum) else []
  }

  ghost function ModifyPackets(data: seq<byte>, startAddr: nat, endAddr: nat): FileImage -> seq<Packet>
    requires startAddr <= endAddr
  {
    (img: FileImage) =>
      if endAddr / DFS_BLOCK_SIZE < |img.blockList|
      then Packets(img, data, startAddr / DFS_BLOCK_SIZE, startAddr, Span(startAddr, endAddr)) else []
  }

  ghost predicate Next(s: State, step: Step, t: State) {
    && Shaped(s)
    && match step
      case Register(id, ip, port) =>
        id >= 1 && t == if id < MAX_DATANODE_NUM then s.(reg := s.reg[id - 1 := Some(DataNode(id, ip, port))]) else s
      case Push(name, data) => SendStep(s, WriteReq(name, |data|), t, PushPackets(data))
      case Modify(name, data, size, startAddr, endAddr) =>
        && startAddr <= endAddr
        && (Lookup(s.images, name).Some? ==> endAddr / DFS_BLOCK_SIZE < BlocksAfter(Lookup(s.images, name).value, size))
        && SendStep(s, ModifyReq(name, size), t, ModifyPackets(data, startAddr, endAddr))
      case Deliver(packet) =>
        packet in s.flights && HasHome(packet.block) && t == Served(s, packet).(flights := s.flights - multiset{packet})
      case Fetch(block) => HasHome(block) && t == Served(s, ReadPacket(block))
  }

  function BlocksAfter(img: FileImage, size: nat): nat {
    if BlockCount(size) > img.blocknum then BlockCount(size) else img.blocknum
  }

  // ---- the abstract files ----

  type Files = map<string, seq<byte>>

  /** A file system of byte sequences: a push replaces a file, a modification lays bytes over it. */
  ghost function FilesNext(files: Files, s: State, step: Step): Files {
    match step
    case Push(name, data) =>
      if PlaceFor(s.images, name) < MAX_FILE_COUNT then files[name := Padded(data)] else files
    case Modify(name, data, size, startAddr, endAddr) =>
      if name in files && Lookup(s.images, name).Some?
      then files[name := Modified(files[name], data, startAddr, endAddr, BlocksAfter(Lookup(s.images, name).value, size))]
      else files
    case _ => files
  }

  /** No block of the file is on its way. */
  ghost predicate Quiet(s: State, name: string) {
    forall p | p in s.flights :: p.block.owner != name
  }

  predicate Writes(step: Step, name: string) {
    (step.Push? || step.Modify?) && step.name == name
  }

  /** A file is written only when its last write has arrived, and a modification sends all the blocks it adds. */
  ghost predicate Orderly(s: State, step: Step) {
    match step
    case Push(name, _) => Quiet(s, name)
    case Modify(name, _, size, startAddr, endAddr) =>
      && Quiet(s, name)
      && (Lookup(s.images, name).Some? && Lookup(s.images, name).value.blocknum < BlockCount(size) ==>
        startAddr / DFS_BLOCK_SIZE <= Lookup(s.images, name).value.blocknum && BlockCount(size) <= endAddr / DFS_BLOCK_SIZE + 1)
    case _ => true
  }

  ghost predicate Stored(s: State, b: BlockDesc, piece: seq<byte>) {
    && HasHome(b) && b.dnId <= |s.stores|
    && KeyOf(b) in s.stores[b.dnId - 1] && s.stores[b.dnId - 1][KeyOf(b)] == piece
  }

  /** Block i of the file is stored, or on its way. */
  ghost predicate BlockHeld(s: State, img: FileImage, p: seq<byte>, i: nat) {
    && i < |img.blockList|
    && var b, piece := img.blockList[i], PieceAt(p, i * DFS_BLOCK_SIZE);
      Stored(s, b, piece) || CreatePacket(b, piece) in s.flights
  }

  /** The packet carries a block of the file to where its image says. */
  ghost predicate RightPacket(img: FileImage, p: seq<byte>, q: Packet) {
    && q.CreatePacket? && q.block.blockId < img.blocknum <= |img.blockList|
    && q.block == img.blockList[q.block.blockId]
    && q.content == PieceAt(p, q.block.blockId * DFS_BLOCK_SIZE)
  }

  ghost predicate FileHeld(s: State, name: string, img: FileImage, p: seq<byte>) {
    && |p| == img.blocknum * DFS_BLOCK_SIZE
    && (forall i | 0 <= i < img.blocknum :: BlockHeld(s, img, p, i))
    && (forall q | q in s.flights && q.block.owner == name :: RightPacket(img, p, q))
  }

  ghost predicate Held(s: State, files: Files, name: string) {
    match Lookup(s.images, name)
    case Some(img) => name in files && FileHeld(s, name, img, files[name])
    case None => name !in files && Quiet(s, name)
  }

  ghost predicate Refines(s: State, files: Files) {
    Shaped(s) && forall name: string :: Held(s, files, name)
  }

  // ---- one step, and what it leaves of one file ----

  lemma InitRefines(s: State)
    requires Init(s)
    ensures Refines(s, map[])
  {
  }

  lemma RegisterRefines(s: State, step: Step, t: State, files: Files, name: string)
    requires Held(s, files, name) && step.Register? && Next(s, step, t)
    ensures Held(t, files, name)
  {
    hide TableOk, Lookup, FileHeld;
    if Lookup(s.images, name).Some? {
      SameHeld(s, t, name, Lookup(s.images, name).value, files[name]);
    }
  }

  lemma SameHeld(s: State, t: State, name: string, img: FileImage, p: seq<byte>)
    requires FileHeld(s, name, img, p) && t.stores == s.stores && t.flights == s.flights
    ensures FileHeld(t, name, img, p)
  {
    forall i | 0 <= i < img.blocknum
      ensures BlockHeld(t, img, p, i)
    {
      assert BlockHeld(s, img, p, i);
    }
  }

  /** What the image of a file says of its blocks. */
  lemma ImageBlock(s: State, name: string, i: nat)
    requires Shaped(s) && Lookup(s.images, name).Some? && i < Lookup(s.images, name).value.blocknum
    ensures var img := Lookup(s.images, name).value;
      i < |img.blockList| && HasHome(img.blockList[i]) && KeyOf(img.blockList[i]) == (name, i)
  {
    FoundOk(s.reg, s.images, name);
    assert BlockOk(s.reg, name, i, Lookup(s.images, name).value.blockList[i]);
  }

  lemma FetchRefines(s: State, step: Step, t: State, files: Files, name: string)
    requires Held(s, files, name) && step.Fetch? && Next(s, step, t)
    ensures Held(t, files, name)
  {
    hide TableOk, Lookup, PieceAt;
    if Lookup(s.images, name).Some? {
      var img := Lookup(s.images, name).value;
      forall i | 0 <= i < img.blocknum
        ensures BlockHeld(t, img, files[name], i)
      {
        assert BlockHeld(s, img, files[name], i);
      }
    }
  }

  lemma DeliverRefines(s: State, step: Step, t: State, files: Files, name: string)
    requires Held(s, files, name) && step.Deliver? && Next(s, step, t)
    ensures Held(t, files, name)
  {
    hide TableOk, Lookup, FileHeld;
    if Lookup(s.images, name).Some? {
      DeliverHeld(s, step.packet, t, name, files[name]);
    } else {
      QuietStays(s, step.packet, t, name);
    }
  }

  lemma QuietStays(s: State, q: Packet, t: State, name: string)
    requires Quiet(s, name) && t.flights == s.flights - multiset{q}
    ensures Quiet(t, name)
  {
    forall p | p in t.flights
      ensures p.block.owner != name
    {
      assert p in s.flights;
    }
  }

  lemma DeliverHeld(s: State, q: Packet, t: State, name: string, p: seq<byte>)
    requires Shaped(s) && Lookup(s.images, name).Some? && FileHeld(s, name, Lookup(s.images, name).value, p)
    requires Next(s, Deliver(q), t)
    ensures FileHeld(t, name, Lookup(s.images, name).value, p)
  {
    hide TableOk, Lookup, PieceAt;
    var img := Lookup(s.images, name).value;
    forall i | 0 <= i < img.blocknum
      ensures BlockHeld(t, img, p, i)
    {
      ImageBlock(s, name, i);
      assert BlockHeld(s, img, p, i);
      DeliverBlock(s, q, t, name, img, p, i);
    }
    forall r | r in t.flights && r.block.owner == name
      ensures RightPacket(img, p, r)
    {
      assert r in s.flights;
    }
  }

  lemma DeliverBlock(s: State, q: Packet, t: State, name: string, img: FileImage, p: seq<byte>, i: nat)
    requires |s.stores| == MAX_DATANODE_NUM && q in s.flights && HasHome(q.block)
    requires t == Served(s, q).(flights := s.flights - multiset{q})
    requires i < |img.blockList| && HasHome(img.blockList[i]) && KeyOf(img.blockList[i]) == (name, i)
    requires q.block.owner == name ==> RightPacket(img, p, q)
    requires BlockHeld(s, img, p, i)
    ensures BlockHeld(t, img, p, i)
  {
    hide PieceAt;
    var b, piece := img.blockList[i], PieceAt(p, i * DFS_BLOCK_SIZE);
    if KeyOf(q.block) == KeyOf(b) {
      assert q == CreatePacket(b, piece);
      assert Stored(t, b, piece);
    } else if Stored(s, b, piece) {
      assert Stored(t, b, piece);
    } else {
      assert CreatePacket(b, piece) in t.flights;
    }
  }

  // ---- writes ----

  /** A write leaves the other files alone. */
  lemma OthersHeld(s: State, t: State, files: Files, name: string, name2: string, packets: seq<Packet>)
    requires Held(s, files, name2) && name2 != name
    requires Lookup(t.images, name2) == Lookup(s.images, name2) && t.stores == s.stores
    requires t.flights == s.flights + multiset(packets)
    requires forall i | 0 <= i < |packets| :: packets[i].block.owner == name
    ensures Held(t, files, name2)
  {
    hide Lookup, PieceAt;
    NoneFor(packets, name, name2);
    if Lookup(s.images, name2).Some? {
      var img := Lookup(s.images, name2).value;
      forall i | 0 <= i < img.blocknum
        ensures BlockHeld(t, img, files[name2], i)
      {
        assert BlockHeld(s, img, files[name2], i);
      }
    }
  }

  lemma NoneFor(packets: seq<Packet>, name: string, name2: string)
    requires name != name2 && forall i | 0 <= i < |packets| :: packets[i].block.owner == name
    ensures forall q | q in multiset(packets) :: q.block.owner != name2
  {
    forall q | q in multiset(packets)
      ensures q.block.owner != name2
    {
      assert q in packets;
    }
  }

  /** The n blocks of p from number first on are the pieces of data from position pos on. */
  ghost predicate SamePieces(p: seq<byte>, data: seq<byte>, first: nat, pos: nat, n: nat) {
    forall i | first <= i < first + n :: PieceAt(p, i * DFS_BLOCK_SIZE) == PieceAt(data, pos + (i - first) * DFS_BLOCK_SIZE)
  }

  /** The packets of a file's blocks are right ones. */
  lemma PacketsRight(reg: Registry, img: FileImage, data: seq<byte>, p: seq<byte>, first: nat, pos: nat, n: nat)
    requires ImageOk(reg, img) && first + n <= img.blocknum && SamePieces(p, data, first, pos, n)
    ensures forall q | q in multiset(Packets(img, data, first, pos, n)) :: RightPacket(img, p, q) && q.block.owner == img.filename
  {
    hide PieceAt, RightPacket, SamePieces, ImageOk;
    FullBlocks(reg, img);
    var packets := Packets(img, data, first, pos, n);
    forall q | q in multiset(packets)
      ensures RightPacket(img, p, q) && q.block.owner == img.filename
    {
      assert q in packets;
      var k :| 0 <= k < n && packets[k] == q;
      OnePiece(p, data, first, pos, n, k);
      PacketRight(reg, img, p, first + k, packets[k]);
    }
  }

  lemma OnePiece(p: seq<byte>, data: seq<byte>, first: nat, pos: nat, n: nat, k: nat)
    requires SamePieces(p, data, first, pos, n) && k < n
    ensures PieceAt(p, (first + k) * DFS_BLOCK_SIZE) == PieceAt(data, pos + k * DFS_BLOCK_SIZE)
  {
    hide PieceAt;
    assert PieceAt(p, (first + k) * DFS_BLOCK_SIZE) == PieceAt(data, pos + (first + k - first) * DFS_BLOCK_SIZE);
  }

  lemma PacketRight(reg: Registry, img: FileImage, p: seq<byte>, i: nat, q: Packet)
    requires ImageOk(reg, img) && i < img.blocknum && q == CreatePacket(img.blockList[i], PieceAt(p, i * DFS_BLOCK_SIZE))
    ensures RightPacket(img, p, q) && q.block.owner == img.filename
  {
    assert BlockOk(reg, img.filename, i, img.blockList[i]);
  }

  /** There is a packet for each of the blocks. */
  lemma PacketsAll(img: FileImage, data: seq<byte>, p: seq<byte>, first: nat, pos: nat, n: nat, i: nat)
    requires first + n <= |img.blockList| && SamePieces(p, data, first, pos, n) && first <= i < first + n
    ensures CreatePacket(img.blockList[i], PieceAt(p, i * DFS_BLOCK_SIZE)) in multiset(Packets(img, data, first, pos, n))
  {
    hide PieceAt, SamePieces;
    OnePiece(p, data, first, pos, n, i - first);
    var packets := Packets(img, data, first, pos, n);
    assert packets[i - first] in packets;
  }

  lemma PushHeld(s: State, t: State, name: string, img: FileImage, data: seq<byte>)
    requires ImageOk(s.reg, img) && img.filename == name && img.blocknum == BlockCount(|data|)
    requires Quiet(s, name)
    requires t.flights == s.flights + multiset(Packets(img, data, 0, 0, img.blocknum))
    ensures FileHeld(t, name, img, Padded(data))
  {
    hide PieceAt, Padded, ImageOk, FileHeld, BlockHeld, RightPacket, Packets, BlockCount, SamePieces;
    var p := Padded(data);
    PaddedPieces(data);
    FullBlocks(s.reg, img);
    PacketsRight(s.reg, img, data, p, 0, 0, img.blocknum);
    forall i | 0 <= i < img.blocknum
      ensures BlockHeld(t, img, p, i)
    {
      PacketsAll(img, data, p, 0, 0, img.blocknum, i);
      OnItsWay(t, img, p, i);
    }
    MakeHeld(t, name, img, p);
  }

  lemma PaddedPieces(data: seq<byte>)
    ensures |Padded(data)| == BlockCount(|data|) * DFS_BLOCK_SIZE
    ensures SamePieces(Padded(data), data, 0, 0, BlockCount(|data|))
  {
    hide PieceAt, Padded;
    forall i | 0 <= i < BlockCount(|data|)
      ensures PieceAt(Padded(data), i * DFS_BLOCK_SIZE) == PieceAt(data, 0 + (i - 0) * DFS_BLOCK_SIZE)
    {
      PaddedPiece(data, i);
    }
  }

  lemma PushRefines(s: State, step: Step, t: State, files: Files, name: string)
    requires step.Push? && Next(s, step, t)
    requires if step.name == name then Quiet(s, name) && (PlaceFor(s.images, name) == MAX_FILE_COUNT ==> Held(s, files, name)) else Held(s, files, name)
    ensures Held(t, FilesNext(files, s, step), name)
  {
    hide TableOk, Lookup, Held, Fits, InService, Padded, PlaceFor, ImageOk, PushedImage, ImageBefore;
    var req := WriteReq(step.name, |step.data|);
    ServeKeeps(s.reg, s.images, req);
    PushAnswer(s.reg, s.images, step.name, |step.data|);
    var files2 := FilesNext(files, s, step);
    match Serve(s.reg, s.images, req).1
    case FileResponse(img) =>
      FullBlocks(s.reg, img);
      if name == step.name {
        PushHeld(s, t, name, img, step.data);
        HeldIf(t, files2, name);
      } else {
        OwnPackets(s.reg, img, step.data, 0, 0, img.blocknum);
        OthersHeld(s, t, files, step.name, name, Packets(img, step.data, 0, 0, img.blocknum));
        SameFile(t, files, files2, name);
      }
    case _ =>
  }

  lemma HeldIf(t: State, files: Files, name: string)
    requires Lookup(t.images, name).Some? && name in files && FileHeld(t, name, Lookup(t.images, name).value, files[name])
    ensures Held(t, files, name)
  {
  }

  lemma SameFile(t: State, files: Files, files2: Files, name: string)
    requires Held(t, files, name)
    requires (name in files <==> name in files2) && (name in files ==> files2[name] == files[name])
    ensures Held(t, files2, name)
  {
    hide FileHeld, Quiet, Lookup;
  }

  lemma FullBlocks(reg: Registry, img: FileImage)
    requires ImageOk(reg, img)
    ensures img.blocknum <= |img.blockList| == MAX_FILE_BLK_COUNT
  {
  }

  lemma OwnPackets(reg: Registry, img: FileImage, data: seq<byte>, first: nat, pos: nat, n: nat)
    requires ImageOk(reg, img) && first + n <= img.blocknum
    ensures forall i | 0 <= i < n :: Packets(img, data, first, pos, n)[i].block.owner == img.filename
  {
    hide PieceAt;
    forall i | 0 <= i < n
      ensures Packets(img, data, first, pos, n)[i].block.owner == img.filename
    {
      assert BlockOk(reg, img.filename, first + i, img.blockList[first + i]);
    }
  }

  /** A push is answered with an image of as many blocks as the file needs. */
  lemma PushAnswer(reg: Registry, images: Images, name: string, size: nat)
    requires InService(reg) && TableOk(reg, images) && Fits(images, WriteReq(name, size))
    ensures match Serve(reg, images, WriteReq(name, size)).1
      case FileResponse(img) => img.blocknum == BlockCount(size) && PlaceFor(images, name) < MAX_FILE_COUNT
      case _ => PlaceFor(images, name) == MAX_FILE_COUNT
  {
    hide TableOk, BlockCount, ImageBefore, PlaceFor, InService;
    ImageBeforeOk(reg, images, name, size);
  }

  /** A modification is answered with the file's image, its first blocks where they were. */
  lemma ModifyAnswer(reg: Registry, images: Images, name: string, size: nat)
    requires InService(reg) && TableOk(reg, images) && Fits(images, ModifyReq(name, size))
    ensures match Serve(reg, images, ModifyReq(name, size)).1
      case FileResponse(img) =>
        Lookup(images, name).Some? && var img0 := Lookup(images, name).value;
          && img.blocknum == BlocksAfter(img0, size) && |img.blockList| == |img0.blockList| && img0.blocknum <= |img0.blockList|
          && forall i | 0 <= i < img0.blocknum :: img.blockList[i] == img0.blockList[i]
      case _ => Lookup(images, name).None?
  {
    hide TableOk, BlockCount, Lookup, InService, Find;
    if Lookup(images, name).Some? {
      FoundOk(reg, images, name);
      ExtendedOk(reg, Lookup(images, name).value, BlockCount(size));
    }
  }

  /** The blocks a modification sends are on their way, and the others are stored as before. */
  lemma ModifyHeld(s: State, t: State, name: string, img0: FileImage, img: FileImage, p: seq<byte>, data: seq<byte>, startAddr: nat, endAddr: nat)
    requires Shaped(s) && ImageOk(s.reg, img) && img.filename == name
    requires FileHeld(s, name, img0, p) && Quiet(s, name)
    requires img0.blocknum <= img.blocknum && |img.blockList| == |img0.blockList| && img0.blocknum <= |img0.blockList|
    requires forall i | 0 <= i < img0.blocknum :: img.blockList[i] == img0.blockList[i]
    requires startAddr <= endAddr && endAddr / DFS_BLOCK_SIZE < img.blocknum
    requires img0.blocknum < img.blocknum ==> startAddr / DFS_BLOCK_SIZE <= img0.blocknum && img.blocknum <= endAddr / DFS_BLOCK_SIZE + 1
    requires t.stores == s.stores
    requires t.flights == s.flights + multiset(Packets(img, data, startAddr / DFS_BLOCK_SIZE, startAddr, Span(startAddr, endAddr)))
    ensures FileHeld(t, name, img, Modified(p, data, startAddr, endAddr, img.blocknum))
  {
    hide TableOk, PieceAt, Modified, ImageOk, BlockHeld, FileHeld, Packets;
    var a, n := startAddr / DFS_BLOCK_SIZE, Span(startAddr, endAddr);
    var q := Modified(p, data, startAddr, endAddr, img.blocknum);
    forall i | 0 <= i < img.blocknum
      ensures PieceAt(q, i * DFS_BLOCK_SIZE)
        == if a <= i < a + n then PieceAt(data, startAddr + (i - a) * DFS_BLOCK_SIZE) else PieceAt(p, i * DFS_BLOCK_SIZE)
    {
      ModifiedPiece(p, data, startAddr, endAddr, img.blocknum, i);
    }
    FullBlocks(s.reg, img);
    WindowHeld(s, t, name, img0, img, p, q, data, a, startAddr, n);
  }

  lemma WindowHeld(s: State, t: State, name: string, img0: FileImage, img: FileImage, p: seq<byte>, q: seq<byte>, data: seq<byte>, a: nat, pos: nat, n: nat)
    requires ImageOk(s.reg, img) && img.filename == name && |q| == img.blocknum * DFS_BLOCK_SIZE
    requires FileHeld(s, name, img0, p) && Quiet(s, name)
    requires img0.blocknum <= |img0.blockList| == |img.blockList|
    requires forall i | 0 <= i < img0.blocknum :: img.blockList[i] == img0.blockList[i]
    requires a + n <= img.blocknum <= |img.blockList| && (img0.blocknum < img.blocknum ==> a <= img0.blocknum && a + n == img.blocknum)
    requires SamePieces(q, data, a, pos, n)
    requires forall i | 0 <= i < img.blocknum && !(a <= i < a + n) :: PieceAt(q, i * DFS_BLOCK_SIZE) == PieceAt(p, i * DFS_BLOCK_SIZE)
    requires t.stores == s.stores && t.flights == s.flights + multiset(Packets(img, data, a, pos, n))
    ensures FileHeld(t, name, img, q)
  {
    hide PieceAt, ImageOk, FileHeld, RightPacket, BlockHeld, Packets, SamePieces;
    PacketsRight(s.reg, img, data, q, a, pos, n);
    forall i | 0 <= i < img.blocknum
      ensures BlockHeld(t, img, q, i)
    {
      if a <= i < a + n {
        PacketsAll(img, data, q, a, pos, n, i);
        OnItsWay(t, img, q, i);
      } else {
        ImageEntry(s.reg, img, i);
        StillStored(s, t, name, img0, img, p, q, i);
      }
    }
    MakeHeld(t, name, img, q);
  }

  lemma MakeHeld(t: State, name: string, img: FileImage, q: seq<byte>)
    requires |q| == img.blocknum * DFS_BLOCK_SIZE
    requires forall i | 0 <= i < img.blocknum :: BlockHeld(t, img, q, i)
    requires forall r | r in t.flights && r.block.owner == name :: RightPacket(img, q, r)
    ensures FileHeld(t, name, img, q)
  {
    hide BlockHeld, RightPacket;
  }

  lemma OnItsWay(t: State, img: FileImage, q: seq<byte>, i: nat)
    requires i < |img.blockList| && CreatePacket(img.blockList[i], PieceAt(q, i * DFS_BLOCK_SIZE)) in t.flights
    ensures BlockHeld(t, img, q, i)
  {
  }

  lemma ImageEntry(reg: Registry, img: FileImage, i: nat)
    requires ImageOk(reg, img) && i < img.blocknum
    ensures i < |img.blockList| && img.blockList[i].owner == img.filename
  {
    assert BlockOk(reg, img.filename, i, img.blockList[i]);
  }

  lemma StillStored(s: State, t: State, name: string, img0: FileImage, img: FileImage, p: seq<byte>, q: seq<byte>, i: nat)
    requires FileHeld(s, name, img0, p) && Quiet(s, name) && i < img0.blocknum <= |img0.blockList| == |img.blockList|
    requires img.blockList[i] == img0.blockList[i] && img.blockList[i].owner == name
    requires PieceAt(q, i * DFS_BLOCK_SIZE) == PieceAt(p, i * DFS_BLOCK_SIZE)
    requires t.stores == s.stores
    ensures BlockHeld(t, img, q, i)
  {
    hide PieceAt;
    assert BlockHeld(s, img0, p, i);
  }

  lemma ModifyRefines(s: State, step: Step, t: State, files: Files, name: string)
    requires Held(s, files, name) && step.Modify? && Next(s, step, t) && (step.name == name ==> Orderly(s, step))
    ensures Held(t, FilesNext(files, s, step), name)
  {
    hide TableOk, Lookup, FileHeld, Fits, InService, Modified, ImageOk, ExtendedImage, BlockCount, Find;
    var req := ModifyReq(step.name, step.size);
    ServeKeeps(s.reg, s.images, req);
    ModifyAnswer(s.reg, s.images, step.name, step.size);
    var files2 := FilesNext(files, s, step);
    match Serve(s.reg, s.images, req).1
    case FileResponse(img) =>
      FullBlocks(s.reg, img);
      var a, n := step.startAddr / DFS_BLOCK_SIZE, Span(step.startAddr, step.endAddr);
      if name == step.name {
        ModifyHeld(s, t, name, Lookup(s.images, name).value, img, files[name], step.data, step.startAddr, step.endAddr);
        HeldIf(t, files2, name);
      } else {
        OwnPackets(s.reg, img, step.data, a, step.startAddr, n);
        OthersHeld(s, t, files, step.name, name, Packets(img, step.data, a, step.startAddr, n));
        SameFile(t, files, files2, name);
      }
    case _ =>
  }

  /** A step refines the file's abstract step, if it is in order as far as it writes this file. */
  lemma NextHeld(s: State, step: Step, t: State, files: Files, name: string)
    requires Held(s, files, name) && Next(s, step, t) && (Writes(step, name) ==> Orderly(s, step))
    ensures Held(t, FilesNext(files, s, step), name)
  {
    hide Held, Next, Quiet;
    match step
    case Register(_, _, _) => RegisterRefines(s, step, t, files, name);
    case Push(_, _) => PushRefines(s, step, t, files, name);
    case Modify(_, _, _, _, _) => ModifyRefines(s, step, t, files, name);
    case Deliver(_) => DeliverRefines(s, step, t, files, name);
    case Fetch(_) => FetchRefines(s, step, t, files, name);
  }

  /** Every step keeps the table in order, and sends blocks only to datanodes. */
  lemma NextShaped(s: State, step: Step, t: State)
    requires Next(s, step, t)
    ensures Shaped(t)
    ensures Homed(s) ==> Homed(t)
  {
    hide TableOk, SendStep, Homed;
    match step
    case Register(id, ip, port) =>
      if id < MAX_DATANODE_NUM {
        RegisterKeepsTable(s.reg, s.images, id - 1, DataNode(id, ip, port));
      }
      HomedStays(s, t);
    case Push(name, data) => PushShaped(s, step, t);
    case Modify(_, _, _, _, _) => ModifyShaped(s, step, t);
    case Deliver(packet) =>
      assert forall p | p in t.flights :: p in s.flights;
      HomedStays(s, t);
    case Fetch(_) => HomedStays(s, t);
  }

  /** What is on its way are whole blocks for datanodes. */
  ghost predicate Homed(s: State) {
    forall p | p in s.flights :: HasHome(p.block) && IsBlock(p)
  }

  predicate IsBlock(p: Packet) {
    p.CreatePacket? && |p.content| == DFS_BLOCK_SIZE
  }

  lemma HomedStays(s: State, t: State)
    requires forall p | p in t.flights :: p in s.flights
    ensures Homed(s) ==> Homed(t)
  {
  }

  lemma HomedMore(s: State, t: State, img: FileImage, data: seq<byte>, first: nat, pos: nat, n: nat)
    requires ImageOk(s.reg, img) && IsRegistry(s.reg) && first + n <= img.blocknum <= |img.blockList|
    requires t.flights == s.flights + multiset(Packets(img, data, first, pos, n))
    ensures Homed(s) ==> Homed(t)
  {
    hide PieceAt;
    var packets := Packets(img, data, first, pos, n);
    forall p: Packet | p in multiset(packets)
      ensures HasHome(p.block) && IsBlock(p)
    {
      assert p in packets;
      var k :| 0 <= k < n && packets[k] == p;
      assert BlockOk(s.reg, img.filename, first + k, img.blockList[first + k]);
    }
  }

  lemma PushShaped(s: State, step: Step, t: State)
    requires Next(s, step, t) && step.Push?
    ensures Shaped(t) && (Homed(s) ==> Homed(t))
  {
    hide Lookup, Fits, InService, ImageOk, PushedImage, ImageBefore, PlaceFor, BlockCount, Homed, Unique, Packets;
    var req := WriteReq(step.name, |step.data|);
    ServeKeeps(s.reg, s.images, req);
    match Serve(s.reg, s.images, req).1
    case FileResponse(img) =>
      FullBlocks(s.reg, img);
      HomedMore(s, t, img, step.data, 0, 0, img.blocknum);
    case _ =>
  }

  lemma ModifyShaped(s: State, step: Step, t: State)
    requires Next(s, step, t) && step.Modify?
    ensures Shaped(t) && (Homed(s) ==> Homed(t))
  {
    hide Lookup, Fits, InService, ImageOk, ExtendedImage, BlockCount, Find, Homed, Unique, Packets;
    var req := ModifyReq(step.name, step.size);
    ServeKeeps(s.reg, s.images, req);
    ModifyAnswer(s.reg, s.images, step.name, step.size);
    match Serve(s.reg, s.images, req).1
    case FileResponse(img) =>
      FullBlocks(s.reg, img);
      HomedMore(s, t, img, step.data, step.startAddr / DFS_BLOCK_SIZE, step.startAddr, Span(step.startAddr, step.endAddr));
    case _ =>
  }

  // ---- runs ----

  ghost predicate IsRun(states: seq<State>, steps: seq<Step>) {
    && |states| == |steps| + 1 && Init(states[0])
    && forall i | 0 <= i < |steps| :: Next(states[i], steps[i], states[i + 1])
  }

  /** The first n steps write the file in order. */
  ghost predicate OrderlyFor(states: seq<State>, steps: seq<Step>, name: string, n: nat) {
    n <= |steps| <= |states| && forall i | 0 <= i < n && Writes(steps[i], name) :: Orderly(states[i], steps[i])
  }

  /** The abstract files after i steps. */
  ghost function FilesAt(states: seq<State>, steps: seq<Step>, i: nat): Files
    requires i <= |steps| <= |states|
  {
    if i == 0 then map[] else FilesNext(FilesAt(states, steps, i - 1), states[i - 1], steps[i - 1])
  }

  lemma {:induction false} RunShaped(states: seq<State>, steps: seq<Step>, i: nat)
    requires IsRun(states, steps) && i <= |steps|
    ensures Shaped(states[i]) && Homed(states[i])
  {
    hide Next, Homed, Shaped;
    if i == 0 {
      InitRefines(states[0]);
      NoFlights(states[0]);
    } else {
      RunShaped(states, steps, i - 1);
      NextShaped(states[i - 1], steps[i - 1], states[i]);
    }
  }

  lemma NoFlights(s: State)
    requires Init(s)
    ensures Shaped(s) && Homed(s)
  {
  }

  /** In every run a file that is written in order is what the abstract files say, however other files are written. */
  lemma {:induction false} RunHeld(states: seq<State>, steps: seq<Step>, i: nat, name: string)
    requires IsRun(states, steps) && OrderlyFor(states, steps, name, i)
    ensures Held(states[i], FilesAt(states, steps, i), name)
  {
    hide Init, Next, Orderly, Held, Writes;
    if i == 0 {
      InitHeld(states[0], name);
    } else {
      RunHeld(states, steps, i - 1, name);
      NextHeld(states[i - 1], steps[i - 1], states[i], FilesAt(states, steps, i - 1), name);
    }
  }

  lemma InitHeld(s: State, name: string)
    requires Init(s)
    ensures Held(s, map[], name)
  {
    InitRefines(s);
  }

  /** A run that writes every file in order refines the file system of byte sequences. */
  lemma RunRefines(states: seq<State>, steps: seq<Step>, i: nat)
    requires IsRun(states, steps) && i <= |steps|
    requires forall name: string :: OrderlyFor(states, steps, name, i)
    ensures Refines(states[i], FilesAt(states, steps, i))
  {
    hide Init, Next, OrderlyFor, Held;
    RunShaped(states, steps, i);
    forall name: string
      ensures Held(states[i], FilesAt(states, steps, i), name)
    {
      RunHeld(states, steps, i, name);
    }
  }

  /** A datanode asked for a block of a file that has arrived answers with its bytes. */
  lemma HeldAnswer(s: State, files: Files, name: string, b: nat)
    requires Shaped(s) && Held(s, files, name) && Quiet(s, name) && Lookup(s.images, name).Some? && b < Lookup(s.images, name).value.blocknum
    ensures var img := Lookup(s.images, name).value;
      && name in files && |files[name]| == img.blocknum * DFS_BLOCK_SIZE
      && b < |img.blockList| && HasHome(img.blockList[b]) && |s.stores| == MAX_DATANODE_NUM
      && Answer(s.stores[img.blockList[b].dnId - 1], img.blockList[b]) == PieceAt(files[name], b * DFS_BLOCK_SIZE)
  {
    hide TableOk, Lookup, PieceAt;
    var img := Lookup(s.images, name).value;
    ImageBlock(s, name, b);
    assert BlockHeld(s, img, files[name], b);
  }

  /** While a file is not written, its image, its bytes and its having arrived stay. */
  lemma {:induction false} Unwritten(states: seq<State>, steps: seq<Step>, j: nat, k: nat, name: string)
    requires IsRun(states, steps) && j <= k <= |steps|
    requires forall i | j <= i < k :: !Writes(steps[i], name)
    ensures Lookup(states[k].images, name) == Lookup(states[j].images, name)
    ensures Quiet(states[j], name) ==> Quiet(states[k], name)
    ensures name in FilesAt(states, steps, k) <==> name in FilesAt(states, steps, j)
    ensures name in FilesAt(states, steps, j) ==> FilesAt(states, steps, k)[name] == FilesAt(states, steps, j)[name]
    decreases k
  {
    hide Init, Next, Lookup, Quiet, Writes, FilesNext;
    if j < k {
      Unwritten(states, steps, j, k - 1, name);
      StepElsewhere(states[k - 1], steps[k - 1], states[k], FilesAt(states, steps, k - 1), name);
    }
  }

  /** While a file is not written, the system goes on holding its bytes. */
  lemma {:induction false} HeldLasts(states: seq<State>, steps: seq<Step>, j: nat, k: nat, files: Files, name: string)
    requires IsRun(states, steps) && j <= k <= |steps|
    requires forall i | j <= i < k :: !Writes(steps[i], name)
    requires Held(states[j], files, name)
    ensures Held(states[k], files, name)
    decreases k
  {
    hide Init, Next, Held, Writes, FilesNext;
    if j < k {
      HeldLasts(states, steps, j, k - 1, files, name);
      NextHeld(states[k - 1], steps[k - 1], states[k], files, name);
      StepElsewhere(states[k - 1], steps[k - 1], states[k], files, name);
      SameFile(states[k], FilesNext(files, states[k - 1], steps[k - 1]), files, name);
    }
  }

  lemma StepElsewhere(s: State, step: Step, t: State, files: Files, name: string)
    requires Next(s, step, t) && !Writes(step, name)
    ensures Lookup(t.images, name) == Lookup(s.images, name)
    ensures Quiet(s, name) ==> Quiet(t, name)
    ensures name in FilesNext(files, s, step) <==> name in files
    ensures name in files ==> FilesNext(files, s, step)[name] == files[name]
  {
    hide TableOk, Lookup, SendStep, Modified, Padded;
    match step
    case Push(name2, data) => PushElsewhere(s, t, name2, data, name);
    case Modify(name2, data, size, startAddr, endAddr) => ModifyElsewhere(s, t, step, name);
    case Deliver(packet) =>
      if Quiet(s, name) {
        QuietStays(s, packet, t, name);
      }
    case _ =>
  }

  lemma PushElsewhere(s: State, t: State, name2: string, data: seq<byte>, name: string)
    requires Next(s, Push(name2, data), t) && name2 != name
    ensures Lookup(t.images, name) == Lookup(s.images, name)
    ensures Quiet(s, name) ==> Quiet(t, name)
  {
    hide TableOk, Lookup, Fits, InService, ImageOk, PushedImage, ImageBefore, PlaceFor, BlockCount;
    ServeKeeps(s.reg, s.images, WriteReq(name2, |data|));
    match Serve(s.reg, s.images, WriteReq(name2, |data|)).1
    case FileResponse(img) =>
      FullBlocks(s.reg, img);
      OwnPackets(s.reg, img, data, 0, 0, img.blocknum);
      NoneFor(Packets(img, data, 0, 0, img.blocknum), name2, name);
    case _ =>
  }

  lemma ModifyElsewhere(s: State, t: State, step: Step, name: string)
    requires Next(s, step, t) && step.Modify? && step.name != name
    ensures Lookup(t.images, name) == Lookup(s.images, name)
    ensures Quiet(s, name) ==> Quiet(t, name)
  {
    hide TableOk, Lookup, Fits, InService, ImageOk, ExtendedImage, BlockCount, Find;
    var req := ModifyReq(step.name, step.size);
    ServeKeeps(s.reg, s.images, req);
    ModifyAnswer(s.reg, s.images, step.name, step.size);
    match Serve(s.reg, s.images, req).1
    case FileResponse(img) =>
      var a, n := step.startAddr / DFS_BLOCK_SIZE, Span(step.startAddr, step.endAddr);
      FullBlocks(s.reg, img);
      OwnPackets(s.reg, img, step.data, a, step.startAddr, n);
      NoneFor(Packets(img, step.data, a, step.startAddr, n), step.name, name);
    case _ =>
  }

  /** What reads of the blocks at given times are answered, for a file held from time j to time k. */
  lemma PullHeld(states: seq<State>, steps: seq<Step>, j: nat, k: nat, files: Files, name: string, times: seq<nat>, answers: seq<seq<byte>>)
    requires IsRun(states, steps) && j <= k <= |steps|
    requires forall i | j <= i < k :: !Writes(steps[i], name)
    requires Held(states[j], files, name) && Quiet(states[j], name) && Lookup(states[j].images, name).Some?
    requires Answered(states, Lookup(states[j].images, name).value, j, k, times, answers)
    ensures name in files && Join(answers) == files[name]
  {
    hide Init, Next, Held, Lookup, Quiet, Writes, PieceAt, Answer, Join, AnswerAt;
    var img := Lookup(states[j].images, name).value;
    HasFile(states[j], files, name);
    forall b | 0 <= b < img.blocknum
      ensures answers[b] == PieceAt(files[name], b * DFS_BLOCK_SIZE)
    {
      OneAnswer(states, steps, j, times[b], files, name, b, answers[b]);
    }
    JoinPieces(answers, files[name]);
  }

  lemma OneAnswer(states: seq<State>, steps: seq<Step>, j: nat, time: nat, files: Files, name: string, b: nat, answer: seq<byte>)
    requires IsRun(states, steps) && j <= time <= |steps|
    requires forall i | j <= i < time :: !Writes(steps[i], name)
    requires Held(states[j], files, name) && Quiet(states[j], name) && Lookup(states[j].images, name).Some?
    requires b < Lookup(states[j].images, name).value.blocknum && AnswerAt(states, Lookup(states[j].images, name).value, b, time, answer)
    ensures name in files && answer == PieceAt(files[name], b * DFS_BLOCK_SIZE)
  {
    hide Init, Next, Held, Lookup, Quiet, Writes, PieceAt, Answer;
    Unwritten(states, steps, j, time, name);
    HeldLasts(states, steps, j, time, files, name);
    RunShaped(states, steps, time);
    HeldAnswer(states[time], files, name, b);
  }

  /** What the name node answers a client that wants to pull a file. */
  ghost function PullAnswer(s: State, name: string): Response
    requires InService(s.reg) && Shaped(s)
  {
    Serve(s.reg, s.images, ReadReq(name)).1
  }

  /** It is the image of the file, if there is one. */
  lemma PullAnswerIs(s: State, name: string)
    requires InService(s.reg) && Shaped(s)
    ensures PullAnswer(s, name) == match Lookup(s.images, name) case Some(img) => FileResponse(img) case None => NoResponse
  {
    hide Serve, TableOk, Lookup, InService;
    ServeRead(s.reg, s.images, name);
  }

  /**
   A pull that gets the name node's answer at time j and block b at time times[b]
   gets the abstract file, if the file had arrived at j and is not written meanwhile.
   */
  lemma PullRefines(states: seq<State>, steps: seq<Step>, j: nat, k: nat, name: string, times: seq<nat>, answers: seq<seq<byte>>)
    requires IsRun(states, steps) && j <= k <= |steps| && OrderlyFor(states, steps, name, j)
    requires forall i | j <= i < k :: !Writes(steps[i], name)
    requires Quiet(states[j], name) && InService(states[j].reg)
    ensures Shaped(states[j])
    ensures PullAnswer(states[j], name) == NoResponse <==> name !in FilesAt(states, steps, j)
    ensures var answer := PullAnswer(states[j], name);
      answer != NoResponse ==> (answer.FileResponse?
        && (Answered(states, answer.image, j, k, times, answers) ==> Join(answers) == FilesAt(states, steps, j)[name]))
  {
    hide Init, Next, OrderlyFor, Held, Lookup, Quiet, Writes, Answered, Join, PullAnswer, TableOk;
    RunShaped(states, steps, j);
    PullAnswerIs(states[j], name);
    RunHeld(states, steps, j, name);
    var files := FilesAt(states, steps, j);
    if Lookup(states[j].images, name).None? {
      HasNoFile(states[j], files, name);
    } else {
      HasFile(states[j], files, name);
      if Answered(states, Lookup(states[j].images, name).value, j, k, times, answers) {
        PullHeld(states, steps, j, k, files, name, times, answers);
      }
    }
  }

  lemma HasNoFile(s: State, files: Files, name: string)
    requires Held(s, files, name) && Lookup(s.images, name).None?
    ensures name !in files
  {
  }

  lemma HasFile(s: State, files: Files, name: string)
    requires Held(s, files, name) && Lookup(s.images, name).Some?
    ensures name in files && |files[name]| == Lookup(s.images, name).value.blocknum * DFS_BLOCK_SIZE
  {
  }

  /** The answer to a read of block b at a time. */
  ghost predicate AnswerAt(states: seq<State>, img: FileImage, b: nat, time: nat, answer: seq<byte>) {
    && time < |states| && b < |img.blockList| && 1 <= img.blockList[b].dnId <= |states[time].stores|
    && answer == Answer(states[time].stores[img.blockList[b].dnId - 1], img.blockList[b])
  }

  /** There is an answer for each block of the image, given at some time from j to k. */
  ghost predicate Answered(states: seq<State>, img: FileImage, j: nat, k: nat, times: seq<nat>, answers: seq<seq<byte>>) {
    && |times| == |answers| == img.blocknum
    && forall b | 0 <= b < img.blocknum :: j <= times[b] <= k && AnswerAt(states, img, b, times[b], answers[b])
  }

  /**
   The round trip: once the blocks of a push have arrived, a pull gives the pushed
   bytes filled up to whole blocks, whatever registrations, reads, deliveries and
   writes of other files come between, in order or not. Of this file no block may
   be on its way at the push, and it may not be written again before the pull.
   */
  lemma RoundTrip(states: seq<State>, steps: seq<Step>, i: nat, j: nat, k: nat, name: string, data: seq<byte>, times: seq<nat>, answers: seq<seq<byte>>)
    requires IsRun(states, steps) && i < j <= k <= |steps|
    requires steps[i] == Push(name, data) && PlaceFor(states[i].images, name) < MAX_FILE_COUNT && Quiet(states[i], name)
    requires forall h | i < h < k :: !Writes(steps[h], name)
    requires Quiet(states[j], name)
    ensures InService(states[j].reg) && Shaped(states[j])
    ensures var answer := PullAnswer(states[j], name);
      && answer.FileResponse? && answer.image.filename == name && answer.image.blocknum == BlockCount(|data|)
      && (Answered(states, answer.image, j, k, times, answers) ==>
        && Join(answers) == Padded(data) && Join(answers)[..|data|] == data
        && (|data| % DFS_BLOCK_SIZE == 0 ==> Join(answers) == data))
  {
    hide Init, Next, Lookup, Quiet, Join, PlaceFor, Answered, BlockCount, Held, TableOk, PullAnswer, Shaped;
    var s, t := states[i], states[i + 1];
    assert Next(s, steps[i], t);
    var files := FilesNext(map[], s, steps[i]);
    PushRefines(s, steps[i], t, map[], name);
    JustPushed(s, t, name, data);
    Unwritten(states, steps, i + 1, j, name);
    HeldLasts(states, steps, i + 1, j, files, name);
    ServiceLasts(states, steps, i, j);
    RunShaped(states, steps, j);
    PullAnswerIs(states[j], name);
    AnswerNamed(states[j], name);
    if Answered(states, Lookup(states[j].images, name).value, j, k, times, answers) {
      PullHeld(states, steps, j, k, files, name, times, answers);
    }
  }

  lemma AnswerNamed(s: State, name: string)
    requires Shaped(s) && Lookup(s.images, name).Some?
    ensures Lookup(s.images, name).value.filename == name
  {
    FoundOk(s.reg, s.images, name);
  }

  /** With a datanode registered, or after a push, there always is one. */
  lemma {:induction false} ServiceLasts(states: seq<State>, steps: seq<Step>, i: nat, j: nat)
    requires IsRun(states, steps) && i <= j <= |steps|
    requires InService(states[i].reg) || (i < j && (steps[i].Push? || steps[i].Modify?))
    ensures InService(states[j].reg)
    decreases j
  {
    hide Init, Next, InService;
    if i < j {
      if i + 1 < j || InService(states[i].reg) {
        ServiceLasts(states, steps, i, j - 1);
      }
      ServiceStays(states[j - 1], steps[j - 1], states[j]);
    }
  }

  lemma ServiceStays(s: State, step: Step, t: State)
    requires Next(s, step, t) && (InService(s.reg) || step.Push? || step.Modify?)
    ensures InService(t.reg)
  {
    hide Serve, Fits, TableOk;
    var k :| 0 <= k < MAX_DATANODE_NUM && s.reg[k].Some?;
    assert t.reg[k].Some?;
  }

  lemma JustPushed(s: State, t: State, name: string, data: seq<byte>)
    requires Next(s, Push(name, data), t) && PlaceFor(s.images, name) < MAX_FILE_COUNT
    ensures Lookup(t.images, name).Some? && Lookup(t.images, name).value.blocknum == BlockCount(|data|)
  {
    hide TableOk, Lookup, Fits, InService, Padded, ImageOk, PushedImage, ImageBefore, PlaceFor, BlockCount;
    ServeKeeps(s.reg, s.images, WriteReq(name, |data|));
    PushAnswer(s.reg, s.images, name, |data|);
  }

  // ---- delivery ----

  /** In every run each block on its way can be delivered, whatever the order. */
  lemma CanDeliver(states: seq<State>, steps: seq<Step>, i: nat, packet: Packet)
    requires IsRun(states, steps) && i <= |steps| && packet in states[i].flights
    ensures exists t :: Next(states[i], Deliver(packet), t) && |t.flights| < |states[i].flights|
  {
    hide Init, TableOk;
    var s := states[i];
    RunShaped(states, steps, i);
    var t := Served(s, packet).(flights := s.flights - multiset{packet});
    assert Next(s, Deliver(packet), t);
  }

  // ---- the datanodes' part ----

  /** The packet that datanode k serves in a step, if any. */
  function ServedBy(step: Step, k: nat): seq<Packet> {
    match step
    case Deliver(packet) => if packet.block.dnId == k + 1 then [packet] else []
    case Fetch(block) => if block.dnId == k + 1 then [ReadPacket(block)] else []
    case _ => []
  }

  /** The packets that datanode k has served after i steps. */
  function Received(steps: seq<Step>, i: nat, k: nat): seq<Packet>
    requires i <= |steps|
  {
    if i == 0 then [] else Received(steps, i - 1, k) + ServedBy(steps[i - 1], k)
  }

  /** In every run what a datanode is sent to store are whole blocks. */
  lemma {:induction false} ReceivedBlocks(states: seq<State>, steps: seq<Step>, i: nat, k: nat)
    requires IsRun(states, steps) && i <= |steps|
    ensures forall j | 0 <= j < |Received(steps, i, k)| && Received(steps, i, k)[j].CreatePacket? ::
      |Received(steps, i, k)[j].content| == DFS_BLOCK_SIZE
  {
    hide Init;
    if i != 0 {
      ReceivedBlocks(states, steps, i - 1, k);
      RunShaped(states, steps, i - 1);
      SentBlock(states[i - 1], steps[i - 1], states[i], k);
    }
  }

  lemma SentBlock(s: State, step: Step, t: State, k: nat)
    requires Next(s, step, t) && Homed(s)
    ensures forall j | 0 <= j < |ServedBy(step, k)| && ServedBy(step, k)[j].CreatePacket? :: |ServedBy(step, k)[j].content| == DFS_BLOCK_SIZE
  {
    hide TableOk, SendStep, HasHome;
  }

  /** In every run a datanode stores what serving its packets, one after the other, leaves. */
  lemma {:induction false} StoreIsServed(states: seq<State>, steps: seq<Step>, i: nat, k: nat)
    requires IsRun(states, steps) && i <= |steps| && k < MAX_DATANODE_NUM
    ensures |states[i].stores| == MAX_DATANODE_NUM && states[i].stores[k] == HandledAll(map[], Received(steps, i, k))
  {
    hide Next, Handled, Init, Shaped, HandledAll, ServedBy;
    if i == 0 {
      FirstStores(states[0], k);
      NoneHandled();
    } else {
      StoreIsServed(states, steps, i - 1, k);
      ServedOnce(states[i - 1], steps[i - 1], states[i], k);
      ServedLast(Received(steps, i - 1, k), ServedBy(steps[i - 1], k));
    }
  }

  lemma NoneHandled()
    ensures HandledAll(map[], []) == map[]
  {
  }

  lemma FirstStores(s: State, k: nat)
    requires Init(s) && k < MAX_DATANODE_NUM
    ensures |s.stores| == MAX_DATANODE_NUM && s.stores[k] == map[]
  {
  }

  lemma ServedOnce(s: State, step: Step, t: State, k: nat)
    requires Next(s, step, t) && k < MAX_DATANODE_NUM
    ensures |s.stores| == |t.stores| == MAX_DATANODE_NUM && |ServedBy(step, k)| <= 1
    ensures t.stores[k] == if ServedBy(step, k) == [] then s.stores[k] else Handled(s.stores[k], ServedBy(step, k)[0])
  {
    hide TableOk, SendStep, Handled, Lookup, BlocksAfter;
    match step
    case Push(name, data) => SendKeepsStores(s, WriteReq(name, |data|), t, PushPackets(data));
    case Modify(name, data, size, startAddr, endAddr) =>
      SendKeepsStores(s, ModifyReq(name, size), t, ModifyPackets(data, startAddr, endAddr));
    case _ =>
  }

  lemma SendKeepsStores(s: State, req: Request, t: State, packets: FileImage -> seq<Packet>)
    requires Shaped(s) && SendStep(s, req, t, packets)
    ensures t.stores == s.stores
  {
    hide TableOk, Serve, Fits, InService;
  }

  lemma ServedLast(packets: seq<Packet>, more: seq<Packet>)
    requires |more| <= 1
    ensures HandledAll(map[], packets + more) == if more == [] then HandledAll(map[], packets) else Handled(HandledAll(map[], packets), more[0])
  {
    hide Handled;
    if more == [] {
      assert packets + more == packets;
    } else {
      assert (packets + more)[..|packets|] == packets;
    }
  }

  /** Two writes of one block on their way at once: the one delivered last stays, whichever it is. */
  lemma OrderMatters(s: State, b: BlockDesc, x: seq<byte>, y: seq<byte>, t: State, u: State)
    requires Next(s, Deliver(CreatePacket(b, x)), t) && Next(t, Deliver(CreatePacket(b, y)), u)
    ensures Stored(u, b, y) && (x != y ==> !Stored(u, b, x))
  {
    hide TableOk;
  }

  /** The state after a push that the table takes. */
  ghost function Sent(s: State, name: string, data: seq<byte>): State
    requires Shaped(s) && InService(s.reg) && Fits(s.images, WriteReq(name, |data|))
  {
    match Serve(s.reg, s.images, WriteReq(name, |data|)).1
    case FileResponse(img) =>
      s.(images := Serve(s.reg, s.images, WriteReq(name, |data|)).0, flights := s.flights + multiset(PushPackets(data)(img)))
    case _ => s
  }

  /** A file of one block, pushed: its packet is on its way. */
  lemma OneBlockSent(s: State, name: string, data: seq<byte>)
    requires Shaped(s) && InService(s.reg) && 1 <= |data| <= DFS_BLOCK_SIZE
    requires PlaceFor(s.images, name) < MAX_FILE_COUNT && ImageBefore(s.images, name, |data|).blocknum <= 1
    ensures Fits(s.images, WriteReq(name, |data|)) && Next(s, Push(name, data), Sent(s, name, data))
    ensures var t := Sent(s, name, data);
      && Shaped(t) && t.reg == s.reg && t.stores == s.stores && PlaceFor(t.images, name) < MAX_FILE_COUNT
      && Lookup(t.images, name).Some?
      && var img := Lookup(t.images, name).value;
        && img.blocknum == 1 && |img.blockList| == MAX_FILE_BLK_COUNT && HasHome(img.blockList[0]) && img.blockList[0].owner == name
        && t.flights == s.flights + multiset{CreatePacket(img.blockList[0], PieceAt(data, 0))}
        && (Lookup(s.images, name).Some? && Lookup(s.images, name).value.blocknum == 1 && |Lookup(s.images, name).value.blockList| == MAX_FILE_BLK_COUNT
          ==> img.blockList[0] == Lookup(s.images, name).value.blockList[0])
  {
    hide TableOk, Lookup, PieceAt, ImageOk, PushedImage, PlaceFor, InService, Packets;
    var req := WriteReq(name, |data|);
    ImageBeforeOk(s.reg, s.images, name, |data|);
    FullBlocks(s.reg, ImageBefore(s.images, name, |data|));
    ServeKeeps(s.reg, s.images, req);
    PushAnswer(s.reg, s.images, name, |data|);
    var before := ImageBefore(s.images, name, |data|);
    PushedOk(s.reg, before, 1);
    var t := Sent(s, name, data);
    PushShaped(s, Push(name, data), t);
    ShapedSizes(t, name);
    StillPlaced(t.images, name);
    ImageBlock(t, name, 0);
    OnePacket(Lookup(t.images, name).value, data);
  }

  lemma StillPlaced(images: Images, name: string)
    requires Lookup(images, name).Some? && |images| == MAX_FILE_COUNT
    ensures PlaceFor(images, name) < MAX_FILE_COUNT
  {
  }

  lemma ShapedSizes(s: State, name: string)
    requires Shaped(s) && Lookup(s.images, name).Some?
    ensures |s.images| == MAX_FILE_COUNT && |Lookup(s.images, name).value.blockList| == MAX_FILE_BLK_COUNT
  {
    FoundOk(s.reg, s.images, name);
  }

  lemma OnePacket(img: FileImage, data: seq<byte>)
    requires |img.blockList| > 0
    ensures Packets(img, data, 0, 0, 1) == [CreatePacket(img.blockList[0], PieceAt(data, 0))]
    ensures multiset(Packets(img, data, 0, 0, 1)) == multiset{CreatePacket(img.blockList[0], PieceAt(data, 0))}
  {
    hide PieceAt;
  }

  function FirstState(): State {
    State(seq(MAX_DATANODE_NUM, (i: nat) => None), seq(MAX_FILE_COUNT, (i: nat) => None), seq(MAX_DATANODE_NUM, (i: nat) => map[]), multiset{})
  }

  /**
   A run in which two pushes of a file overtake each other: all blocks have
   arrived, the last push was that of y, and the datanode answers with x. Only
   this file was written while one of its own blocks was on its way.
   */
  lemma Overtaken(name: string, x: seq<byte>, y: seq<byte>) returns (states: seq<State>, steps: seq<Step>, b: BlockDesc)
    requires 1 <= |x| <= DFS_BLOCK_SIZE && 1 <= |y| <= DFS_BLOCK_SIZE
    ensures IsRun(states, steps) && |steps| == 5 && steps[1] == Push(name, x) && steps[2] == Push(name, y) && !Quiet(states[2], name)
    ensures states[5].flights == multiset{} && Lookup(states[5].images, name).Some?
    ensures var img := Lookup(states[5].images, name).value; img.blocknum == 1 && |img.blockList| > 0 && img.blockList[0] == b
    ensures HasHome(b) && |states[5].stores| == MAX_DATANODE_NUM && Answer(states[5].stores[b.dnId - 1], b) == PieceAt(x, 0)
  {
    hide Next, Init, Shaped, Lookup, PieceAt, Delivered, Answer;
    var s0, s1, s2, s3;
    s0, s1, s2, s3, b := BothSent(name, x, y);
    var p, q := CreatePacket(b, PieceAt(x, 0)), CreatePacket(b, PieceAt(y, 0));
    DeliveredIs(s3, q);
    var s4 := Delivered(s3, q);
    assert s4.flights == multiset{p};
    DeliveredIs(s4, p);
    var s5 := Delivered(s4, p);
    assert s5.flights == multiset{};
    states := [s0, s1, s2, s3, s4, s5];
    steps := [Register(1, "", 0), Push(name, x), Push(name, y), Deliver(q), Deliver(p)];
    FiveSteps(states, steps);
  }

  /** Two pushes of a file in a row: both packets for its one block are on their way. */
  lemma BothSent(name: string, x: seq<byte>, y: seq<byte>) returns (s0: State, s1: State, s2: State, s3: State, b: BlockDesc)
    requires 1 <= |x| <= DFS_BLOCK_SIZE && 1 <= |y| <= DFS_BLOCK_SIZE
    ensures Init(s0) && Next(s0, Register(1, "", 0), s1) && Next(s1, Push(name, x), s2) && Next(s2, Push(name, y), s3)
    ensures !Quiet(s2, name) && Shaped(s3) && Lookup(s3.images, name).Some? && HasHome(b)
    ensures var img := Lookup(s3.images, name).value; img.blocknum == 1 && |img.blockList| > 0 && img.blockList[0] == b
    ensures s3.flights == multiset{CreatePacket(b, PieceAt(x, 0))} + multiset{CreatePacket(b, PieceAt(y, 0))}
  {
    hide Next, Init, Shaped, Lookup, PieceAt, PlaceFor, ImageBefore, Sent, InService, Fits;
    s0 := FirstState();
    s1 := FirstRegistered(name);
    NewFile(s1.images, name, |x|);
    OneBlockSent(s1, name, x);
    s2 := Sent(s1, name, x);
    b := Lookup(s2.images, name).value.blockList[0];
    OldFile(s2.images, name, |y|);
    OneBlockSent(s2, name, y);
    s3 := Sent(s2, name, y);
    assert CreatePacket(b, PieceAt(x, 0)) in s2.flights;
  }

  function Delivered(s: State, packet: Packet): State
    requires |s.stores| == MAX_DATANODE_NUM && HasHome(packet.block)
  {
    Served(s, packet).(flights := s.flights - multiset{packet})
  }

  lemma DeliveredIs(s: State, packet: Packet)
    requires Shaped(s) && packet in s.flights && packet.CreatePacket? && HasHome(packet.block) && |packet.content| == DFS_BLOCK_SIZE
    ensures |s.stores| == MAX_DATANODE_NUM
    ensures var t := Delivered(s, packet);
      && Next(s, Deliver(packet), t) && Shaped(t) && t.images == s.images && t.flights == s.flights - multiset{packet}
      && |t.stores| == MAX_DATANODE_NUM && Answer(t.stores[packet.block.dnId - 1], packet.block) == packet.content
  {
    hide TableOk;
    NextShaped(s, Deliver(packet), Delivered(s, packet));
  }

  lemma FirstRegistered(name: string) returns (s: State)
    ensures Init(FirstState()) && Next(FirstState(), Register(1, "", 0), s) && Shaped(s) && InService(s.reg)
    ensures Lookup(s.images, name).None? && PlaceFor(s.images, name) < MAX_FILE_COUNT && s.flights == multiset{}
  {
    hide TableOk, Lookup, PlaceFor;
    FirstIsInit(name);
    var s0 := FirstState();
    s := s0.(reg := s0.reg[0 := Some(DataNode(1, "", 0))]);
    NextShaped(s0, Register(1, "", 0), s);
    assert s.reg[0].Some?;
  }

  lemma FiveSteps(states: seq<State>, steps: seq<Step>)
    requires |states| == 6 && |steps| == 5 && Init(states[0])
    requires Next(states[0], steps[0], states[1]) && Next(states[1], steps[1], states[2]) && Next(states[2], steps[2], states[3])
    requires Next(states[3], steps[3], states[4]) && Next(states[4], steps[4], states[5])
    ensures IsRun(states, steps)
  {
    hide Next, Init;
  }

  lemma FirstIsInit(name: string)
    ensures Init(FirstState()) && Shaped(FirstState()) && Lookup(FirstState().images, name).None? && PlaceFor(FirstState().images, name) == 0
  {
    InitRefines(FirstState());
    NoFlights(FirstState());
  }

  lemma NewFile(images: Images, name: string, size: nat)
    requires Lookup(images, name).None?
    ensures ImageBefore(images, name, size).blocknum == 0
  {
  }

  lemma OldFile(images: Images, name: string, size: nat)
    requires Lookup(images, name).Some? && Lookup(images, name).value.blocknum == 1
    ensures ImageBefore(images, name, size).blocknum == 1
  {
  }
}
