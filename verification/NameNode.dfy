/** The name node: which datanodes are registered, and which of them holds each block of a file. */
module NameNode {
  import opened Common
  import opened RoundRobin

  const MAX_FILE_COUNT: nat := 1000
  const MAX_FILE_BLK_COUNT: nat := 100

  datatype BlockDesc = BlockDesc(owner: string, dnId: nat, blockId: nat, ip: string, port: int)

  datatype FileImage = FileImage(filename: string, blockList: seq<BlockDesc>, fileSize: nat, blocknum: nat)

  type Images = seq<Option<FileImage>>

  // ---- single images ----

  function BlockCount(size: nat): (n: nat)
    ensures size <= n * DFS_BLOCK_SIZE < size + DFS_BLOCK_SIZE
  {
    (size + (DFS_BLOCK_SIZE - 1)) / DFS_BLOCK_SIZE
  }

  function BlankBlock(): BlockDesc {
    BlockDesc("", 0, 0, "", 0)
  }

  function NewImage(name: string, size: nat): FileImage {
    FileImage(name, seq(MAX_FILE_BLK_COUNT, (i: nat) => BlankBlock()), size, 0)
  }

  predicate Takes(img: FileImage, n: nat) {
    |img.blockList| == MAX_FILE_BLK_COUNT && img.blocknum + n <= MAX_FILE_BLK_COUNT
  }

  /** The descriptor of block i in the given slot. */
  function BlockIn(reg: Registry, name: string, i: nat, slot: nat): BlockDesc
    requires slot < |reg| && reg[slot].Some?
  {
    BlockDesc(name, slot + 1, i, reg[slot].value.ip, reg[slot].value.port)
  }

  ghost predicate BlockOk(reg: Registry, name: string, i: nat, b: BlockDesc) {
    b.owner == name && b.blockId == i && 1 <= b.dnId <= |reg| && reg[b.dnId - 1].Some?
  }

  /** Blocks 0, 1, ... below blocknum are described, each on a registered datanode. */
  ghost predicate ImageOk(reg: Registry, img: FileImage) {
    && |img.blockList| == MAX_FILE_BLK_COUNT
    && img.blocknum <= MAX_FILE_BLK_COUNT
    && forall i | 0 <= i < img.blocknum :: BlockOk(reg, img.filename, i, img.blockList[i])
  }

  ghost predicate AllFilled(reg: Registry, slots: seq<nat>) {
    forall k | 0 <= k < |slots| :: slots[k] < |reg| && reg[slots[k]].Some?
  }

  /** list with entries first, first + 1, ... placed in the slots. */
  ghost function Placed(reg: Registry, name: string, list: seq<BlockDesc>, first: nat, slots: seq<nat>): (s: seq<BlockDesc>)
    requires AllFilled(reg, slots) && first + |slots| <= |list|
    ensures |s| == |list|
    ensures forall i | 0 <= i < |list| ::
      s[i] == if first <= i < first + |slots| then BlockIn(reg, name, i, slots[i - first]) else list[i]
  {
    seq(|list|, i requires 0 <= i < |list| =>
      if first <= i < first + |slots| then BlockIn(reg, name, i, slots[i - first]) else list[i])
  }

  /** A search in a registry with some registered datanode ends at a registered datanode. */
  lemma NextIsFilled(reg: Registry, i: nat)
    requires InService(reg)
    ensures reg[NextSlot(reg, i)].Some?
  {
    hide Seek;
    var x :| 0 <= x < MAX_DATANODE_NUM && reg[x].Some?;
    var j := i % MAX_DATANODE_NUM;
    var d := if x >= j then x - j else x + MAX_DATANODE_NUM - j;
    assert (j + d) % MAX_DATANODE_NUM == x;
    if reg[NextSlot(reg, i)].None? {
      SeekMisses(reg, j, MAX_DATANODE_NUM, d);
    }
  }

  lemma {:induction false} SeekMisses(reg: Registry, i: nat, n: nat, d: nat)
    requires IsRegistry(reg) && i < MAX_DATANODE_NUM && d <= n && reg[Seek(reg, i, n)].None?
    ensures reg[(i + d) % MAX_DATANODE_NUM].None?
    decreases n
  {
    hide Seek;
    SeekStep(reg, i, n);
    StepAround(i, d);
    if d > 0 {
      SeekMisses(reg, (i + 1) % MAX_DATANODE_NUM, n - 1, d - 1);
    }
  }

  lemma SeekStep(reg: Registry, i: nat, n: nat)
    requires IsRegistry(reg) && i < MAX_DATANODE_NUM
    ensures reg[Seek(reg, i, n)].None? ==> reg[i].None?
    ensures n > 0 && reg[i].None? ==> Seek(reg, i, n) == Seek(reg, (i + 1) % MAX_DATANODE_NUM, n - 1)
  {
  }

  lemma StepAround(i: nat, d: nat)
    requires i < MAX_DATANODE_NUM
    ensures d == 0 ==> (i + d) % MAX_DATANODE_NUM == i
    ensures d > 0 ==> ((i + 1) % MAX_DATANODE_NUM + (d - 1)) % MAX_DATANODE_NUM == (i + d) % MAX_DATANODE_NUM
  {
  }

  lemma {:induction false} AssignFills(reg: Registry, i: nat, n: nat)
    requires InService(reg)
    ensures AllFilled(reg, Assign(reg, i, n))
    decreases n
  {
    if n != 0 {
      NextIsFilled(reg, i);
      AssignFills(reg, NextSlot(reg, i) + 1, n - 1);
    }
  }

  /** What a push of n blocks makes of an image: n more entries, from the first datanode on. */
  ghost function PushedImage(reg: Registry, img: FileImage, n: nat): (r: FileImage)
    requires InService(reg) && Takes(img, n)
  {
    AssignFills(reg, 0, n);
    img.(blockList := Placed(reg, img.filename, img.blockList, img.blocknum, Assign(reg, 0, n)), blocknum := n)
  }

  lemma PushedIs(reg: Registry, img: FileImage, n: nat)
    requires InService(reg) && Takes(img, n)
    ensures AllFilled(reg, Assign(reg, 0, n))
    ensures PushedImage(reg, img, n)
      == img.(blocknum := n).(blockList := Placed(reg, img.filename, img.blockList, img.blocknum, Assign(reg, 0, n)))
  {
    AssignFills(reg, 0, n);
  }

  /** The slot behind the one that holds the last block. */
  function Behind(img: FileImage): nat
    requires img.blocknum <= |img.blockList|
  {
    if img.blocknum == 0 then 0 else img.blockList[img.blocknum - 1].dnId
  }

  /** What an extension to n blocks makes of an image: the missing entries, from behind the last one on. */
  ghost function ExtendedImage(reg: Registry, img: FileImage, n: nat): (r: FileImage)
    requires InService(reg) && |img.blockList| == MAX_FILE_BLK_COUNT && img.blocknum <= MAX_FILE_BLK_COUNT
    requires n <= MAX_FILE_BLK_COUNT
  {
    if n <= img.blocknum then img
    else
      AssignFills(reg, Behind(img), n - img.blocknum);
      img.(blockList := Placed(reg, img.filename, img.blockList, img.blocknum, Assign(reg, Behind(img), n - img.blocknum)), blocknum := n)
  }

  lemma PushedOk(reg: Registry, img: FileImage, n: nat)
    requires InService(reg) && Takes(img, n) && ImageOk(reg, img)
    ensures ImageOk(reg, PushedImage(reg, img, n))
    ensures PushedImage(reg, img, n).filename == img.filename
    ensures forall i | 0 <= i < img.blocknum :: PushedImage(reg, img, n).blockList[i] == img.blockList[i]
  {
    AssignFills(reg, 0, n);
  }

  lemma ExtendedOk(reg: Registry, img: FileImage, n: nat)
    requires InService(reg) && ImageOk(reg, img) && n <= MAX_FILE_BLK_COUNT
    ensures ImageOk(reg, ExtendedImage(reg, img, n))
    ensures ExtendedImage(reg, img, n).filename == img.filename
    ensures forall i | 0 <= i < img.blocknum :: ExtendedImage(reg, img, n).blockList[i] == img.blockList[i]
    ensures ExtendedImage(reg, img, n).blocknum >= n
  {
    if n > img.blocknum {
      AssignFills(reg, Behind(img), n - img.blocknum);
    }
  }

  // ---- the effect of growing step by step ----

  /** An image after a series of extensions. */
  ghost function ExtendedBy(reg: Registry, img: FileImage, counts: seq<nat>): (r: FileImage)
    requires InService(reg) && ImageOk(reg, img)
    requires forall k | 0 <= k < |counts| :: counts[k] <= MAX_FILE_BLK_COUNT
    ensures ImageOk(reg, r)
  {
    if counts == [] then img
    else
      var last := counts[|counts| - 1];
      var before := ExtendedBy(reg, img, counts[..|counts| - 1]);
      ExtendedOk(reg, before, last);
      ExtendedImage(reg, before, last)
  }

  function Most(m: nat, counts: seq<nat>): (r: nat)
    ensures r >= m
    ensures r == m || r in counts
  {
    if counts == [] then m
    else
      var before := Most(m, counts[..|counts| - 1]);
      if counts[|counts| - 1] > before then counts[|counts| - 1] else before
  }

  lemma NewOk(reg: Registry, name: string, size: nat)
    ensures ImageOk(reg, NewImage(name, size))
  {
  }

  lemma {:induction false} ExtendingByCounts(reg: Registry, name: string, size: nat, n: nat, counts: seq<nat>)
    requires InService(reg) && n <= MAX_FILE_BLK_COUNT
    requires forall k | 0 <= k < |counts| :: counts[k] <= MAX_FILE_BLK_COUNT
    ensures ImageOk(reg, PushedImage(reg, NewImage(name, size), n)) && Most(n, counts) <= MAX_FILE_BLK_COUNT
    ensures ExtendedBy(reg, PushedImage(reg, NewImage(name, size), n), counts) == PushedImage(reg, NewImage(name, size), Most(n, counts))
    decreases |counts|
  {
    NewOk(reg, name, size);
    PushedOk(reg, NewImage(name, size), n);
    if counts != [] {
      var init := counts[..|counts| - 1];
      ExtendingByCounts(reg, name, size, n, init);
      ExtendOnce(reg, name, size, Most(n, init), counts[|counts| - 1]);
    }
  }

  function Counts(sizes: seq<nat>): (counts: seq<nat>)
    ensures |counts| == |sizes| && forall k | 0 <= k < |sizes| :: counts[k] == BlockCount(sizes[k])
  {
    seq(|sizes|, k requires 0 <= k < |sizes| => BlockCount(sizes[k]))
  }

  /**
   Pushing a new file and then extending it by any number of requests is pushing
   it once at the greatest of the sizes: the same blocks in the same places, and
   as many. Only the file size in the image stays that of the push.
   */
  lemma ExtendingIsPushing(reg: Registry, name: string, size: nat, sizes: seq<nat>)
    requires InService(reg) && BlockCount(Most(size, sizes)) <= MAX_FILE_BLK_COUNT
    ensures BlockCount(size) <= MAX_FILE_BLK_COUNT && ImageOk(reg, PushedImage(reg, NewImage(name, size), BlockCount(size)))
    ensures forall k | 0 <= k < |sizes| :: BlockCount(sizes[k]) <= MAX_FILE_BLK_COUNT
    ensures ExtendedBy(reg, PushedImage(reg, NewImage(name, size), BlockCount(size)), Counts(sizes))
      == PushedImage(reg, NewImage(name, Most(size, sizes)), BlockCount(Most(size, sizes))).(fileSize := size)
  {
    hide BlockCount, Assign;
    MostOfCounts(size, sizes);
    ExtendingByCounts(reg, name, size, BlockCount(size), Counts(sizes));
    SizeAside(reg, name, size, Most(size, sizes), BlockCount(Most(size, sizes)));
  }

  lemma SizeAside(reg: Registry, name: string, size: nat, size2: nat, n: nat)
    requires InService(reg) && n <= MAX_FILE_BLK_COUNT
    ensures PushedImage(reg, NewImage(name, size), n) == PushedImage(reg, NewImage(name, size2), n).(fileSize := size)
  {
  }

  /** The greatest of the block counts is the block count of the greatest size. */
  lemma {:induction false} MostOfCounts(size: nat, sizes: seq<nat>)
    ensures Most(BlockCount(size), Counts(sizes)) == BlockCount(Most(size, sizes))
    ensures BlockCount(size) <= BlockCount(Most(size, sizes))
    ensures forall k | 0 <= k < |sizes| :: BlockCount(sizes[k]) <= BlockCount(Most(size, sizes))
    decreases |sizes|
  {
    hide BlockCount, Counts;
    if sizes != [] {
      var n := |sizes| - 1;
      MostOfCounts(size, sizes[..n]);
      assert Counts(sizes)[..n] == Counts(sizes[..n]);
      var before, last := Most(size, sizes[..n]), sizes[n];
      CountsGrow(before, last);
      CountsGrow(last, before);
      forall k | 0 <= k < |sizes|
        ensures BlockCount(sizes[k]) <= BlockCount(Most(size, sizes))
      {
        if k < n {
          assert sizes[k] == sizes[..n][k];
        }
      }
    }
  }

  lemma CountsGrow(a: nat, b: nat)
    ensures a <= b ==> BlockCount(a) <= BlockCount(b)
  {
  }

  lemma BehindPushed(reg: Registry, name: string, size: nat, m: nat)
    requires InService(reg) && m <= MAX_FILE_BLK_COUNT
    ensures var img := PushedImage(reg, NewImage(name, size), m); img.blocknum <= |img.blockList| && Behind(img) == Resume(Assign(reg, 0, m))
  {
    hide Assign, NextSlot;
    AssignFills(reg, 0, m);
  }

  lemma ExtendOnce(reg: Registry, name: string, size: nat, m: nat, n: nat)
    requires InService(reg) && m <= MAX_FILE_BLK_COUNT && n <= MAX_FILE_BLK_COUNT
    ensures ImageOk(reg, PushedImage(reg, NewImage(name, size), m))
    ensures ExtendedImage(reg, PushedImage(reg, NewImage(name, size), m), n) == PushedImage(reg, NewImage(name, size), if n > m then n else m)
  {
    hide Assign, ImageOk, AllFilled, Seek, NextSlot, Behind, Placed;
    NewOk(reg, name, size);
    PushedOk(reg, NewImage(name, size), m);
    if n > m {
      var img := PushedImage(reg, NewImage(name, size), m);
      AssignFills(reg, 0, m);
      AssignFills(reg, 0, n);
      BehindPushed(reg, name, size, m);
      AssignInParts(reg, 0, m, n - m);
      AssignFills(reg, Behind(img), n - m);
      PlaceInParts(reg, name, NewImage(name, size).blockList, Assign(reg, 0, m), Assign(reg, Behind(img), n - m));
    }
  }

  lemma PlaceInParts(reg: Registry, name: string, list: seq<BlockDesc>, slots: seq<nat>, slots2: seq<nat>)
    requires AllFilled(reg, slots) && AllFilled(reg, slots2) && AllFilled(reg, slots + slots2)
    requires |slots| + |slots2| <= |list|
    ensures Placed(reg, name, Placed(reg, name, list, 0, slots), |slots|, slots2) == Placed(reg, name, list, 0, slots + slots2)
  {
  }

  /** A new file's block i is on the datanode in filled slot number i mod k, with k registered. */
  lemma NewFilePlacement(reg: Registry, name: string, size: nat, i: nat)
    requires InService(reg) && BlockCount(size) <= MAX_FILE_BLK_COUNT && i < BlockCount(size)
    ensures Filled(reg) != []
    ensures PushedImage(reg, NewImage(name, size), BlockCount(size)).blockList[i] == BlockIn(reg, name, i, Filled(reg)[i % |Filled(reg)|])
  {
    var n := BlockCount(size);
    AssignFills(reg, 0, n);
    NewFileTurns(reg, n);
  }

  // ---- the table ----

  ghost predicate Unique(images: Images) {
    forall a, b | 0 <= a < b < |images| && images[a].Some? && images[b].Some? ::
      images[a].value.filename != images[b].value.filename
  }

  ghost predicate TableOk(reg: Registry, images: Images) {
    && IsRegistry(reg)
    && |images| == MAX_FILE_COUNT
    && Unique(images)
    && forall a | 0 <= a < |images| && images[a].Some? :: ImageOk(reg, images[a].value)
  }

  /** The place of a file's image from place i on, or the end of the table. */
  function FindFrom(images: Images, name: string, i: nat): (k: nat)
    requires i <= |images|
    ensures i <= k <= |images|
    ensures forall j | i <= j < k :: images[j].None? || images[j].value.filename != name
    ensures k < |images| ==> images[k].Some? && images[k].value.filename == name
    decreases |images| - i
  {
    if i == |images| || (images[i].Some? && images[i].value.filename == name) then i else FindFrom(images, name, i + 1)
  }

  function Find(images: Images, name: string): nat {
    FindFrom(images, name, 0)
  }

  function EmptyFrom(images: Images, i: nat): (k: nat)
    requires i <= |images|
    ensures i <= k <= |images|
    ensures forall j | i <= j < k :: images[j].Some?
    ensures k < |images| ==> images[k].None?
    decreases |images| - i
  {
    if i == |images| || images[i].None? then i else EmptyFrom(images, i + 1)
  }

  /** The image the table holds for a name. */
  function Lookup(images: Images, name: string): Option<FileImage> {
    var k := Find(images, name);
    if k < |images| then images[k] else None
  }

  /** Where the image of a file goes: over the old one, or in the first empty place. */
  function PlaceFor(images: Images, name: string): (k: nat)
    ensures k <= |images|
  {
    var k := Find(images, name);
    if k < |images| then k else EmptyFrom(images, 0)
  }

  /** The image a push of a file begins with. */
  function ImageBefore(images: Images, name: string, size: nat): FileImage {
    match Lookup(images, name)
    case Some(img) => img
    case None => NewImage(name, size)
  }

  lemma ImageBeforeOk(reg: Registry, images: Images, name: string, size: nat)
    requires TableOk(reg, images)
    ensures ImageOk(reg, ImageBefore(images, name, size)) && ImageBefore(images, name, size).filename == name
    ensures PlaceFor(images, name) <= MAX_FILE_COUNT
  {
    NewOk(reg, name, size);
  }

  /** Replacing an image by one of the same name, or entering a new name, keeps the table in order. */
  lemma EnterImage(reg: Registry, images: Images, img: FileImage)
    requires TableOk(reg, images) && ImageOk(reg, img) && PlaceFor(images, img.filename) < MAX_FILE_COUNT
    ensures TableOk(reg, images[PlaceFor(images, img.filename) := Some(img)])
    ensures Lookup(images[PlaceFor(images, img.filename) := Some(img)], img.filename) == Some(img)
    ensures forall name | name != img.filename ::
      Lookup(images[PlaceFor(images, img.filename) := Some(img)], name) == Lookup(images, name)
  {
    hide ImageOk, PlaceFor, Lookup;
    PlaceIs(images, img.filename);
    var k := PlaceFor(images, img.filename);
    var images2 := images[k := Some(img)];
    assert Unique(images2);
    OnlyImage(images2, img.filename);
    assert images2[k] == Some(img);
    forall name | name != img.filename
      ensures Lookup(images2, name) == Lookup(images, name)
    {
      OnlyImage(images, name);
      OnlyImage(images2, name);
      forall a | 0 <= a < |images|
        ensures (images[a].Some? && images[a].value.filename == name) <==> (images2[a].Some? && images2[a].value.filename == name)
        ensures images[a].Some? && images[a].value.filename == name ==> images2[a] == images[a]
      {
      }
    }
  }

  lemma PlaceIs(images: Images, name: string)
    requires PlaceFor(images, name) < |images|
    ensures var k := PlaceFor(images, name);
      && (images[k].None? || images[k].value.filename == name)
      && forall a | 0 <= a < |images| && a != k && images[a].Some? && Unique(images) :: images[a].value.filename != name
  {
  }

  /** An image goes where that of its name is, and a new one in the first empty place. */
  lemma PlaceForIs(images: Images, name: string)
    ensures var k := PlaceFor(images, name);
      && (Lookup(images, name).Some? ==> k < |images| && images[k] == Lookup(images, name) && images[k].value.filename == name)
      && (Lookup(images, name).None? ==> (forall j | 0 <= j < k :: images[j].Some?) && (k < |images| ==> images[k].None?))
  {
    hide EmptyFrom;
    if Lookup(images, name).None? {
      NoImage(images, name);
    }
  }

  lemma NoImage(images: Images, name: string)
    requires Lookup(images, name).None?
    ensures PlaceFor(images, name) == EmptyFrom(images, 0)
  {
  }

  /** In a table with unique names, any image of a name is the one looked up. */
  lemma OnlyImage(images: Images, name: string)
    requires Unique(images)
    ensures forall a | 0 <= a < |images| && images[a].Some? && images[a].value.filename == name :: Lookup(images, name) == images[a]
    ensures Lookup(images, name).None? ==> forall a | 0 <= a < |images| && images[a].Some? :: images[a].value.filename != name
    ensures Lookup(images, name).Some? ==> exists a :: 0 <= a < |images| && images[a] == Lookup(images, name) && images[a].value.filename == name
  {
  }

  /** A datanode that registers, or registers again, makes no image wrong. */
  lemma RegisterKeepsTable(reg: Registry, images: Images, slot: nat, node: DataNode)
    requires TableOk(reg, images) && slot < MAX_DATANODE_NUM
    ensures TableOk(reg[slot := Some(node)], images)
  {
    var reg2 := reg[slot := Some(node)];
    forall a | 0 <= a < |images| && images[a].Some?
      ensures ImageOk(reg2, images[a].value)
    {
      assert ImageOk(reg, images[a].value);
    }
  }

  // ---- the number of datanodes ----

  lemma {:induction false} FilledGrows(reg: Registry, slot: nat, node: DataNode, i: nat)
    requires IsRegistry(reg) && slot < MAX_DATANODE_NUM && i <= MAX_DATANODE_NUM
    ensures |FilledFrom(reg[slot := Some(node)], i)| == |FilledFrom(reg, i)| + (if slot >= i && reg[slot].None? then 1 else 0)
    decreases MAX_DATANODE_NUM - i
  {
    if i < MAX_DATANODE_NUM {
      FilledGrows(reg, slot, node, i + 1);
    }
  }

  lemma {:induction false} NoneFilled(reg: Registry, i: nat)
    requires IsRegistry(reg) && i <= MAX_DATANODE_NUM && forall k | 0 <= k < MAX_DATANODE_NUM :: reg[k].None?
    ensures FilledFrom(reg, i) == []
    decreases MAX_DATANODE_NUM - i
  {
    if i < MAX_DATANODE_NUM {
      NoneFilled(reg, i + 1);
    }
  }

  datatype Request = ReadReq(name: string) | WriteReq(name: string, size: nat) | QueryReq | ModifyReq(name: string, size: nat)

  datatype Response = NoResponse | FileResponse(image: FileImage) | SystemResponse(datanodes: nat)

  /** The request leaves room in the block list of its file. */
  ghost predicate Fits(images: Images, req: Request) {
    match req
    case WriteReq(name, size) => Takes(ImageBefore(images, name, size), BlockCount(size))
    case ModifyReq(_, size) => BlockCount(size) <= MAX_FILE_BLK_COUNT
    case _ => true
  }

  /** The table and the answer after a request. */
  ghost function Serve(reg: Registry, images: Images, req: Request): (Images, Response)
    requires InService(reg) && TableOk(reg, images) && Fits(images, req)
  {
    match req
    case ReadReq(name) =>
      (images, match Lookup(images, name) case Some(img) => FileResponse(img) case None => NoResponse)
    case WriteReq(name, size) =>
      var k := PlaceFor(images, name);
      if k == MAX_FILE_COUNT then (images, NoResponse)
      else
        var img := PushedImage(reg, ImageBefore(images, name, size), BlockCount(size));
        (images[k := Some(img)], FileResponse(img))
    case QueryReq => (images, SystemResponse(|Filled(reg)|))
    case ModifyReq(name, size) =>
      match Lookup(images, name)
      case None => (images, NoResponse)
      case Some(img0) =>
        FoundOk(reg, images, name);
        var img := ExtendedImage(reg, img0, BlockCount(size));
        (images[Find(images, name) := Some(img)], FileResponse(img))
  }

  lemma FoundOk(reg: Registry, images: Images, name: string)
    requires TableOk(reg, images) && Lookup(images, name).Some?
    ensures ImageOk(reg, Lookup(images, name).value) && Lookup(images, name).value.filename == name
    ensures Find(images, name) < |images| == MAX_FILE_COUNT && PlaceFor(images, name) == Find(images, name)
  {
  }

  /** A request keeps the table in order and touches no other file's image. */
  lemma ServeKeeps(reg: Registry, images: Images, req: Request)
    requires InService(reg) && TableOk(reg, images) && Fits(images, req)
    ensures TableOk(reg, Serve(reg, images, req).0)
    ensures forall name | !(req.WriteReq? && req.name == name) && !(req.ModifyReq? && req.name == name) ::
      Lookup(Serve(reg, images, req).0, name) == Lookup(images, name)
    ensures match Serve(reg, images, req).1
      case FileResponse(img) => !req.QueryReq? && img.filename == req.name && ImageOk(reg, img) && Lookup(Serve(reg, images, req).0, req.name) == Some(img)
      case _ => Serve(reg, images, req).0 == images
  {
    hide ImageOk, TableOk, ImageBefore, Lookup, PlaceFor, Find, PushedImage, ExtendedImage, BlockCount;
    match req
    case ReadReq(name) =>
      if Lookup(images, name).Some? {
        FoundOk(reg, images, name);
      }
    case WriteReq(name, size) =>
      ImageBeforeOk(reg, images, name, size);
      if PlaceFor(images, name) < MAX_FILE_COUNT {
        PushedOk(reg, ImageBefore(images, name, size), BlockCount(size));
        EnterImage(reg, images, PushedImage(reg, ImageBefore(images, name, size), BlockCount(size)));
      }
    case QueryReq =>
    case ModifyReq(name, size) =>
      if Lookup(images, name).Some? {
        FoundOk(reg, images, name);
        ExtendedOk(reg, Lookup(images, name).value, BlockCount(size));
        EnterImage(reg, images, ExtendedImage(reg, Lookup(images, name).value, BlockCount(size)));
      }
  }

  // ---- what each kind of request gets ----

  /** A read request gets the image of its name if the table holds one, and only then; it changes nothing. */
  lemma ServeRead(reg: Registry, images: Images, name: string)
    requires InService(reg) && TableOk(reg, images)
    ensures Serve(reg, images, ReadReq(name)).0 == images
    ensures var answer := Serve(reg, images, ReadReq(name)).1;
      && (forall img :: answer == FileResponse(img) <==> Lookup(images, name) == Some(img))
      && (forall img :: answer == FileResponse(img) <==> (img.filename == name && Some(img) in images))
      && (answer == NoResponse <==> Lookup(images, name).None?)
  {
    hide ImageOk;
    OnlyImage(images, name);
  }

  /** A query gets the number of slots with a datanode; it changes nothing. */
  lemma ServeQuery(reg: Registry, images: Images)
    requires InService(reg) && TableOk(reg, images)
    ensures Serve(reg, images, QueryReq) == (images, SystemResponse(|set k | 0 <= k < MAX_DATANODE_NUM && reg[k].Some?|))
  {
    hide FilledFrom;
    FilledCount(reg, 0);
    assert RegisteredFrom(reg, 0) == set k | 0 <= k < MAX_DATANODE_NUM && reg[k].Some?;
  }

  ghost function RegisteredFrom(reg: Registry, i: nat): set<int>
    requires IsRegistry(reg)
  {
    set k | i <= k < MAX_DATANODE_NUM && reg[k].Some?
  }

  lemma {:induction false} FilledCount(reg: Registry, i: nat)
    requires IsRegistry(reg) && i <= MAX_DATANODE_NUM
    ensures |FilledFrom(reg, i)| == |RegisteredFrom(reg, i)|
    decreases MAX_DATANODE_NUM - i
  {
    hide FilledFrom, RegisteredFrom;
    NextRegistered(reg, i);
    if i < MAX_DATANODE_NUM {
      FilledCount(reg, i + 1);
    }
  }

  lemma NextRegistered(reg: Registry, i: nat)
    requires IsRegistry(reg) && i <= MAX_DATANODE_NUM
    ensures i == MAX_DATANODE_NUM ==> FilledFrom(reg, i) == [] && RegisteredFrom(reg, i) == {}
    ensures i < MAX_DATANODE_NUM && reg[i].Some? ==> |FilledFrom(reg, i)| == 1 + |FilledFrom(reg, i + 1)| && |RegisteredFrom(reg, i)| == 1 + |RegisteredFrom(reg, i + 1)|
    ensures i < MAX_DATANODE_NUM && reg[i].None? ==> |FilledFrom(reg, i)| == |FilledFrom(reg, i + 1)| && |RegisteredFrom(reg, i)| == |RegisteredFrom(reg, i + 1)|
  {
    if i < MAX_DATANODE_NUM {
      assert RegisteredFrom(reg, i) == RegisteredFrom(reg, i + 1) + if reg[i].Some? then {i as int} else {};
    }
  }

  /** The first block a push adds to a file. */
  ghost function FirstNew(images: Images, name: string): nat {
    if Lookup(images, name).Some? then Lookup(images, name).value.blocknum else 0
  }

  /** Entry i is on the filled slot whose turn it is, counted from entry first on. */
  ghost predicate OnTurn(reg: Registry, img: FileImage, first: nat, i: nat) {
    && IsRegistry(reg) && Filled(reg) != [] && first <= i < |img.blockList|
    && img.blockList[i] == BlockIn(reg, img.filename, i, Filled(reg)[(i - first) % |Filled(reg)|])
  }

  /** Entry i is on the first filled slot behind that of the entry before it. */
  ghost predicate OnNext(reg: Registry, img: FileImage, i: nat) {
    && IsRegistry(reg) && i < |img.blockList|
    && var slot := NextSlot(reg, if i == 0 then 0 else img.blockList[i - 1].dnId);
      reg[slot].Some? && img.blockList[i] == BlockIn(reg, img.filename, i, slot)
  }

  /**
   A push is turned away only if its file is new and no place of the table is
   empty. Else the image keeps the blocks it had and gets as many more as the size
   takes, in turn from the first filled slot on.
   */
  lemma ServeWrite(reg: Registry, images: Images, name: string, size: nat)
    requires InService(reg) && TableOk(reg, images) && Fits(images, WriteReq(name, size))
    ensures var (images2, answer) := Serve(reg, images, WriteReq(name, size)); var was := Lookup(images, name);
      && (answer == NoResponse <==> (was.None? && forall a | 0 <= a < |images| :: images[a].Some?))
      && (answer == NoResponse ==> images2 == images)
      && (answer != NoResponse ==> answer.FileResponse? && Lookup(images2, name) == Some(answer.image))
    ensures var answer, was, first := Serve(reg, images, WriteReq(name, size)).1, Lookup(images, name), FirstNew(images, name);
      answer.FileResponse? ==> var img := answer.image;
        && img.filename == name && img.blocknum == BlockCount(size) && |img.blockList| == MAX_FILE_BLK_COUNT
        && img.fileSize == (if was.Some? then was.value.fileSize else size)
        && (forall i | 0 <= i < first :: was.Some? && i < |was.value.blockList| && img.blockList[i] == was.value.blockList[i])
        && (forall i | first <= i < first + BlockCount(size) :: OnTurn(reg, img, first, i))
  {
    hide TableOk, ImageOk, BlockCount, Unique, FindFrom, NewImage, PushedImage, OnTurn, EmptyFrom;
    ServeKeeps(reg, images, WriteReq(name, size));
    ImageBeforeOk(reg, images, name, size);
    TableSize(reg, images);
    WriteTurnedAway(images, name);
    BeforeIs(images, name, size);
    PushedTurns(reg, ImageBefore(images, name, size), BlockCount(size));
  }

  lemma PushedTurns(reg: Registry, img: FileImage, n: nat)
    requires InService(reg) && Takes(img, n)
    ensures var img2 := PushedImage(reg, img, n);
      && img2.filename == img.filename && img2.fileSize == img.fileSize && |img2.blockList| == MAX_FILE_BLK_COUNT && img2.blocknum == n
      && (forall i | 0 <= i < img.blocknum :: img2.blockList[i] == img.blockList[i])
      && (forall i | img.blocknum <= i < img.blocknum + n :: OnTurn(reg, img2, img.blocknum, i))
  {
    hide Filled, Assign;
    AssignFills(reg, 0, n);
    NewFileTurns(reg, n);
  }

  lemma TableSize(reg: Registry, images: Images)
    requires TableOk(reg, images)
    ensures |images| == MAX_FILE_COUNT
  {
  }

  lemma BeforeIs(images: Images, name: string, size: nat)
    ensures var img, was := ImageBefore(images, name, size), Lookup(images, name);
      && (was.Some? ==> img == was.value)
      && (was.None? ==> img.blocknum == 0 && img.fileSize == size && img.filename == name)
  {
  }

  lemma WriteTurnedAway(images: Images, name: string)
    requires |images| == MAX_FILE_COUNT
    ensures PlaceFor(images, name) == MAX_FILE_COUNT <==> (Lookup(images, name).None? && forall a | 0 <= a < |images| :: images[a].Some?)
  {
  }

  /**
   A modification is turned away only if its file is missing. Else the image keeps
   its blocks, and gets those it lacks for the size, each on the next filled slot
   behind the one of the block before it.
   */
  lemma ServeModify(reg: Registry, images: Images, name: string, size: nat)
    requires InService(reg) && TableOk(reg, images) && Fits(images, ModifyReq(name, size))
    ensures var (images2, answer) := Serve(reg, images, ModifyReq(name, size)); var was := Lookup(images, name);
      && (answer == NoResponse <==> was.None?)
      && (was.None? ==> images2 == images)
      && (was.Some? ==> answer.FileResponse? && Lookup(images2, name) == Some(answer.image))
    ensures var answer, was := Serve(reg, images, ModifyReq(name, size)).1, Lookup(images, name);
      was.Some? && answer.FileResponse? ==> var img, first := answer.image, was.value.blocknum;
        && img.filename == name && img.fileSize == was.value.fileSize && |img.blockList| == |was.value.blockList| == MAX_FILE_BLK_COUNT
        && img.blocknum == (if first < BlockCount(size) then BlockCount(size) else first) <= MAX_FILE_BLK_COUNT
        && (forall i | 0 <= i < first :: img.blockList[i] == was.value.blockList[i])
        && (forall i | first <= i < img.blocknum :: OnNext(reg, img, i))
  {
    hide TableOk, BlockCount, OnNext, ExtendedImage, FindFrom;
    ServeKeeps(reg, images, ModifyReq(name, size));
    if Lookup(images, name).Some? {
      FoundOk(reg, images, name);
      ExtendedTurns(reg, Lookup(images, name).value, BlockCount(size));
    }
  }

  lemma ExtendedTurns(reg: Registry, img: FileImage, n: nat)
    requires InService(reg) && ImageOk(reg, img) && n <= MAX_FILE_BLK_COUNT
    ensures var img2 := ExtendedImage(reg, img, n);
      && img2.filename == img.filename && img2.fileSize == img.fileSize && |img2.blockList| == MAX_FILE_BLK_COUNT
      && img2.blocknum == (if img.blocknum < n then n else img.blocknum)
      && (forall i | 0 <= i < img.blocknum :: img2.blockList[i] == img.blockList[i])
      && (forall i | img.blocknum <= i < img2.blocknum :: OnNext(reg, img2, i))
  {
    hide NextSlot, Assign, BlockOk;
    if img.blocknum < n {
      var slots := Assign(reg, Behind(img), n - img.blocknum);
      AssignFills(reg, Behind(img), n - img.blocknum);
      var img2 := ExtendedImage(reg, img, n);
      forall i | img.blocknum <= i < n
        ensures OnNext(reg, img2, i)
      {
        AssignAt(reg, Behind(img), n - img.blocknum, i - img.blocknum);
        assert img2.blockList[i] == BlockIn(reg, img.filename, i, slots[i - img.blocknum]);
        if i > img.blocknum {
          assert img2.blockList[i - 1] == BlockIn(reg, img.filename, i - 1, slots[i - 1 - img.blocknum]);
        } else if i > 0 {
          assert img2.blockList[i - 1] == img.blockList[i - 1];
        }
      }
    }
  }

  /** Each block goes to the next filled slot behind that of the block before it. */
  lemma {:induction false} AssignAt(reg: Registry, i: nat, n: nat, k: nat)
    requires IsRegistry(reg) && k < n
    ensures Assign(reg, i, n)[k] == NextSlot(reg, if k == 0 then i else Assign(reg, i, n)[k - 1] + 1)
    decreases k
  {
    hide NextSlot;
    if k > 0 {
      AssignAt(reg, NextSlot(reg, i) + 1, n - 1, k - 1);
    }
  }

  /** Which requests get no answer. */
  lemma ServeAnswers(reg: Registry, images: Images, req: Request)
    requires InService(reg) && TableOk(reg, images) && Fits(images, req)
    ensures Serve(reg, images, req).1 == NoResponse <==> match req
      case ReadReq(name) => Lookup(images, name).None?
      case WriteReq(name, _) => Lookup(images, name).None? && forall a | 0 <= a < |images| :: images[a].Some?
      case QueryReq => false
      case ModifyReq(name, _) => Lookup(images, name).None?
    ensures req.ReadReq? && Lookup(images, req.name).Some? ==> Serve(reg, images, req).1 == FileResponse(Lookup(images, req.name).value)
    ensures req.QueryReq? ==> Serve(reg, images, req).1 == SystemResponse(|set k | 0 <= k < MAX_DATANODE_NUM && reg[k].Some?|)
  {
    hide Serve, TableOk, Lookup, Fits, InService;
    match req
    case ReadReq(name) => ServeRead(reg, images, name);
    case WriteReq(name, size) => ServeWrite(reg, images, name, size);
    case QueryReq => ServeQuery(reg, images);
    case ModifyReq(name, size) => ServeModify(reg, images, name, size);
  }

  /** A request fits exactly if its file will have at most 100 blocks; those of a push come on top of the ones it has. */
  lemma FitsIs(reg: Registry, images: Images, req: Request)
    requires TableOk(reg, images)
    ensures Fits(images, req) <==> match req
      case WriteReq(name, size) => FirstNew(images, name) * DFS_BLOCK_SIZE + size <= MAX_FILE_BLK_COUNT * DFS_BLOCK_SIZE
      case ModifyReq(_, size) => size <= MAX_FILE_BLK_COUNT * DFS_BLOCK_SIZE
      case _ => true
  {
    hide ImageOk;
    if req.WriteReq? {
      ImageBeforeOk(reg, images, req.name, req.size);
      BeforeIs(images, req.name, req.size);
      BeforeHasRoom(reg, images, req.name, req.size);
    }
  }

  lemma BeforeHasRoom(reg: Registry, images: Images, name: string, size: nat)
    requires TableOk(reg, images)
    ensures |ImageBefore(images, name, size).blockList| == MAX_FILE_BLK_COUNT
  {
    ImageBeforeOk(reg, images, name, size);
  }

  class Server {
    const dnlist: array<Option<DataNode>>
    const fileImages: array<Option<FileImage>>
    var dncnt: nat
    var safeMode: nat

    ghost predicate Valid()
      reads this, dnlist, fileImages
    {
      && dnlist.Length == MAX_DATANODE_NUM
      && fileImages.Length == MAX_FILE_COUNT
      && TableOk(dnlist[..], fileImages[..])
      && dncnt == |Filled(dnlist[..])|
      && safeMode <= 1
      && (safeMode == 0 <==> InService(dnlist[..]))
    }

    constructor ()
      ensures Valid() && fresh(dnlist) && fresh(fileImages) && safeMode == 1 && dncnt == 0
      ensures forall k | 0 <= k < MAX_FILE_COUNT :: fileImages[k].None?
    {
      dnlist := new Option<DataNode>[MAX_DATANODE_NUM](i => None);
      fileImages := new Option<FileImage>[MAX_FILE_COUNT](i => None);
      dncnt := 0;
      safeMode := 1;
      new;
      NoneFilled(dnlist[..], 0);
    }

    /** A datanode with id n is kept in slot n - 1; ids from 10 on are turned away. */
    method RegisterDatanode(id: nat, ip: string, port: int)
      requires Valid() && id >= 1
      modifies this, dnlist
      ensures Valid()
      ensures dnlist[..] == if id < MAX_DATANODE_NUM then old(dnlist[..])[id - 1 := Some(DataNode(id, ip, port))] else old(dnlist[..])
      ensures id < MAX_DATANODE_NUM ==> safeMode == 0 && dncnt == old(dncnt) + if old(dnlist[id - 1]).None? then 1 else 0
      ensures id >= MAX_DATANODE_NUM ==> safeMode == old(safeMode) && dncnt == old(dncnt)
    {
      hide ImageOk, Unique;
      ghost var reg0 := dnlist[..];
      if id < MAX_DATANODE_NUM {
        var index := id - 1;
        if dnlist[index].None? {
          dncnt := dncnt + 1;
        }
        dnlist[index] := Some(DataNode(id, ip, port));
        safeMode := 0;
        assert dnlist[..] == reg0[index := Some(DataNode(id, ip, port))];
        RegisterKeepsTable(reg0, fileImages[..], index, DataNode(id, ip, port));
        FilledGrows(reg0, index, DataNode(id, ip, port), 0);
        assert InService(dnlist[..]) by { assert dnlist[..][index].Some?; }
      }
    }

    /** The place of a file's image, or the end of the table. */
    method FindImage(name: string) returns (k: nat)
      requires fileImages.Length == MAX_FILE_COUNT
      ensures k == Find(fileImages[..], name) <= MAX_FILE_COUNT
    {
      k := 0;
      while k < MAX_FILE_COUNT && (fileImages[k].None? || fileImages[k].value.filename != name)
        invariant k <= MAX_FILE_COUNT
        invariant FindFrom(fileImages[..], name, k) == Find(fileImages[..], name)
      {
        k := k + 1;
      }
    }

    /** The first filled slot from slot index on, going round. */
    method FindDatanode(index: nat) returns (slot: nat)
      requires dnlist.Length == MAX_DATANODE_NUM && InService(dnlist[..])
      ensures slot == NextSlot(dnlist[..], index) && slot < MAX_DATANODE_NUM && dnlist[slot].Some?
    {
      NextIsFilled(dnlist[..], index);
      slot := index % MAX_DATANODE_NUM;
      ghost var left := MAX_DATANODE_NUM;
      while dnlist[slot].None?
        invariant slot < MAX_DATANODE_NUM && left >= 0
        invariant Seek(dnlist[..], slot, left) == NextSlot(dnlist[..], index)
        decreases left
      {
        slot := (slot + 1) % MAX_DATANODE_NUM;
        left := left - 1;
      }
    }

    /** The assignment loop: n entries of image k from entry first on, in turn from slot number index on. */
    method AssignBlocks(k: nat, first: nat, n: nat, index: nat)
      requires dnlist.Length == MAX_DATANODE_NUM && InService(dnlist[..])
      requires k < fileImages.Length && fileImages[k].Some?
      requires first + n <= |fileImages[k].value.blockList|
      modifies fileImages
      ensures AllFilled(dnlist[..], Assign(dnlist[..], index, n))
      ensures var img := old(fileImages[k]).value;
        fileImages[..] == old(fileImages[..])[k := Some(img.(blockList := Placed(dnlist[..], img.filename, img.blockList, first, Assign(dnlist[..], index, n))))]
    {
      hide NextSlot;
      ghost var reg, img0, slots := dnlist[..], fileImages[k].value, Assign(dnlist[..], index, n);
      AssignFills(reg, index, n);
      var next, i := index, 0;
      PlaceNone(reg, img0, first, slots);
      while i < n
        invariant 0 <= i <= n
        invariant Assign(reg, next, n - i) == slots[i..]
        invariant fileImages[..] == old(fileImages[..])[k := Some(img0.(blockList := Placed(reg, img0.filename, img0.blockList, first, slots[..i])))]
      {
        var slot := FindDatanode(next);
        var img := fileImages[k].value;
        var block := BlockDesc(img.filename, slot + 1, first + i, dnlist[slot].value.ip, dnlist[slot].value.port);
        fileImages[k] := Some(img.(blockList := img.blockList[first + i := block]));
        PlaceNext(reg, img0, first, slots, i);
        assert slots[i..][1..] == slots[i + 1..];
        next := slot + 1;
        i := i + 1;
      }
      assert slots[..n] == slots;
    }

    /** Finds the image of a file, entering a new one if there is none and a place is left. */
    method EnterFile(name: string, size: nat) returns (k: nat)
      requires fileImages.Length == MAX_FILE_COUNT
      modifies fileImages
      ensures k == PlaceFor(old(fileImages[..]), name)
      ensures fileImages[..] == if k == MAX_FILE_COUNT then old(fileImages[..])
        else old(fileImages[..])[k := Some(ImageBefore(old(fileImages[..]), name, size))]
    {
      hide NewImage;
      k := FindImage(name);
      if k == MAX_FILE_COUNT {
        k := 0;
        while k < MAX_FILE_COUNT && fileImages[k].Some?
          invariant k <= MAX_FILE_COUNT && EmptyFrom(fileImages[..], k) == EmptyFrom(fileImages[..], 0)
        {
          k := k + 1;
        }
        if k < MAX_FILE_COUNT {
          fileImages[k] := Some(NewImage(name, size));
        }
      }
    }

    /** get_file_receivers: enters the file if it is new, assigns its blocks, and answers with its image. */
    method GetFileReceivers(name: string, size: nat) returns (r: Response)
      requires Valid() && safeMode == 0
      requires Fits(fileImages[..], WriteReq(name, size))
      modifies fileImages
      ensures Valid()
      ensures (fileImages[..], r) == Serve(dnlist[..], old(fileImages[..]), WriteReq(name, size))
    {
      hide ImageOk, TableOk, Placed, BlockCount, ImageBefore, PlaceFor, Assign, PushedImage, Filled, InService, AllFilled;
      ghost var reg, images0 := dnlist[..], fileImages[..];
      ImageBeforeOk(reg, images0, name, size);
      ghost var img0 := ImageBefore(images0, name, size);
      var k := EnterFile(name, size);
      assert dnlist[..] == reg;
      if k == MAX_FILE_COUNT {
        assert fileImages[..] == images0;
        return NoResponse;
      }
      var n := BlockCount(size);
      var first := fileImages[k].value.blocknum;
      fileImages[k] := Some(fileImages[k].value.(blocknum := n));
      AssignBlocks(k, first, n, 0);
      PushedIs(reg, img0, n);
      PushedOk(reg, img0, n);
      EnterImage(reg, images0, PushedImage(reg, img0, n));
      assert dnlist[..] == reg;
      assert fileImages[..] == images0[k := Some(PushedImage(reg, img0, n))];
      r := FileResponse(fileImages[k].value);
    }

    /** get_file_location. */
    method GetFileLocation(name: string) returns (r: Response)
      requires Valid()
      ensures r == match Lookup(fileImages[..], name) case Some(img) => FileResponse(img) case None => NoResponse
    {
      var k := FindImage(name);
      r := if k == MAX_FILE_COUNT then NoResponse else FileResponse(fileImages[k].value);
    }

    /** get_file_update_point, going on behind the last block and counting the new ones. */
    method GetFileUpdatePoint(name: string, size: nat) returns (r: Response)
      requires Valid() && safeMode == 0 && Fits(fileImages[..], ModifyReq(name, size))
      modifies fileImages
      ensures Valid()
      ensures (fileImages[..], r) == Serve(dnlist[..], old(fileImages[..]), ModifyReq(name, size))
    {
      hide Unique, Placed, BlockCount, NewImage, Filled, InService, AllFilled, Assign;
      ghost var reg, images0 := dnlist[..], fileImages[..];
      var k := FindImage(name);
      if k == MAX_FILE_COUNT {
        return NoResponse;
      }
      var img0 := fileImages[k].value;
      assert ImageOk(reg, img0);
      var required := BlockCount(size);
      if img0.blocknum < required {
        AssignBlocks(k, img0.blocknum, required - img0.blocknum, Behind(img0));
        fileImages[k] := Some(fileImages[k].value.(blocknum := required));
      }
      ExtendedOk(reg, img0, required);
      EnterImage(reg, images0, ExtendedImage(reg, img0, required));
      assert fileImages[..] == images0[k := Some(ExtendedImage(reg, img0, required))];
      r := FileResponse(fileImages[k].value);
    }

    /** requests_dispatcher, behind the safe mode gate of the main loop. */
    method RequestsDispatcher(req: Request) returns (r: Response)
      requires Valid() && safeMode == 0 && Fits(fileImages[..], req)
      modifies fileImages
      ensures Valid()
      ensures (fileImages[..], r) == Serve(dnlist[..], old(fileImages[..]), req)
      ensures r == NoResponse <==> match req
        case ReadReq(name) => Lookup(old(fileImages[..]), name).None?
        case WriteReq(name, _) => Lookup(old(fileImages[..]), name).None? && forall a | 0 <= a < MAX_FILE_COUNT :: old(fileImages[..])[a].Some?
        case QueryReq => false
        case ModifyReq(name, _) => Lookup(old(fileImages[..]), name).None?
      ensures req.ReadReq? && Lookup(old(fileImages[..]), req.name).Some? ==> r == FileResponse(Lookup(old(fileImages[..]), req.name).value)
      ensures req.QueryReq? ==> r == SystemResponse(|set k | 0 <= k < MAX_DATANODE_NUM && dnlist[k].Some?|)
    {
      hide TableOk, ImageBefore, Lookup, PlaceFor, PushedImage, ExtendedImage, BlockCount, Filled, InService;
      ServeAnswers(dnlist[..], fileImages[..], req);
      assert forall k | 0 <= k < MAX_DATANODE_NUM :: dnlist[..][k] == dnlist[k];
      ghost var registered := set k | 0 <= k < MAX_DATANODE_NUM && dnlist[..][k].Some?;
      assert registered == set k | 0 <= k < MAX_DATANODE_NUM && dnlist[k].Some?;
      match req
      case ReadReq(name) => r := GetFileLocation(name);
      case WriteReq(name, size) => r := GetFileReceivers(name, size);
      case QueryReq => r := SystemResponse(dncnt);
      case ModifyReq(name, size) => r := GetFileUpdatePoint(name, size);
    }
  }

  lemma PlaceNone(reg: Registry, img: FileImage, first: nat, slots: seq<nat>)
    requires first <= |img.blockList|
    ensures img.(blockList := Placed(reg, img.filename, img.blockList, first, slots[..0])) == img
  {
  }

  lemma PlaceNext(reg: Registry, img: FileImage, first: nat, slots: seq<nat>, i: nat)
    requires AllFilled(reg, slots) && i < |slots| && first + |slots| <= |img.blockList|
    ensures AllFilled(reg, slots[..i]) && AllFilled(reg, slots[..i + 1])
    ensures Placed(reg, img.filename, img.blockList, first, slots[..i + 1])
      == Placed(reg, img.filename, img.blockList, first, slots[..i])[first + i := BlockIn(reg, img.filename, first + i, slots[i])]
  {
  }
}
