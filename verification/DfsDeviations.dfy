/**
 Where the distributed file system's code as written differs from the
 operations of this model, and exactly when it does what is meant.
 */
module DfsDeviations {
  import opened Client
  import opened Common
  import opened NameNode
  import opened RoundRobin
  import opened Wire

  // ---- get_file_update_point (PA3/namenode/dfs_namenode.c:316-350) ----

  /** The slots that the loop as written finds: it does not move on behind the one it has used. */
  function SlotsAsCoded(reg: Registry, index: nat, n: nat): (s: seq<nat>)
    requires IsRegistry(reg)
    ensures |s| == n
    decreases n
  {
    if n == 0 then []
    else
      var slot := NextSlot(reg, index);
      [slot] + SlotsAsCoded(reg, slot, n - 1)
  }

  /** All of them are the first one. */
  lemma {:induction false} OneSlot(reg: Registry, index: nat, n: nat)
    requires InService(reg)
    ensures AllFilled(reg, SlotsAsCoded(reg, index, n))
    ensures forall i | 0 <= i < n :: SlotsAsCoded(reg, index, n)[i] == NextSlot(reg, index)
    decreases n
  {
    hide Seek;
    if n != 0 {
      NextIsFilled(reg, index);
      StaysThere(reg, NextSlot(reg, index));
      OneSlot(reg, NextSlot(reg, index), n - 1);
    }
  }

  lemma StaysThere(reg: Registry, slot: nat)
    requires IsRegistry(reg) && slot < MAX_DATANODE_NUM && reg[slot].Some?
    ensures NextSlot(reg, slot) == slot
  {
  }

  /**
   The image after get_file_update_point as written: it begins at the entry
   behind the last block, and adds a counter that has gone down to zero.
   */
  ghost function UpdatedAsCoded(reg: Registry, img: FileImage, n: nat): FileImage
    requires InService(reg) && ImageOk(reg, img) && n <= MAX_FILE_BLK_COUNT
  {
    if n <= img.blocknum then img
    else
      var left := n - img.blocknum;
      var slots := SlotsAsCoded(reg, img.blockList[img.blocknum].dnId, left);
      OneSlot(reg, img.blockList[img.blocknum].dnId, left);
      img.(blockList := Placed(reg, img.filename, img.blockList, img.blocknum, slots), blocknum := img.blocknum + (left - |slots|))
  }

  /** The file has the blocks it was extended by exactly when there were none to add. */
  lemma UpdateCounts(reg: Registry, img: FileImage, n: nat)
    requires InService(reg) && ImageOk(reg, img) && n <= MAX_FILE_BLK_COUNT
    ensures UpdatedAsCoded(reg, img, n).blocknum == ExtendedImage(reg, img, n).blocknum <==> n <= img.blocknum
  {
    hide Assign, NextSlot, SlotsAsCoded;
  }

  /** Block i of a pushed file of n blocks. */
  lemma PushedBlock(reg: Registry, name: string, size: nat, n: nat, i: nat)
    requires InService(reg) && n <= MAX_FILE_BLK_COUNT && i < MAX_FILE_BLK_COUNT
    ensures Filled(reg) != [] && |PushedImage(reg, NewImage(name, size), n).blockList| == MAX_FILE_BLK_COUNT
    ensures PushedImage(reg, NewImage(name, size), n).blockList[i]
      == if i < n then BlockIn(reg, name, i, Filled(reg)[i % |Filled(reg)|]) else BlankBlock()
  {
    hide Assign, FilledFrom, NextSlot;
    AssignFills(reg, 0, n);
    NewFileTurns(reg, n);
  }

  lemma FirstSlot(reg: Registry)
    requires InService(reg)
    ensures IsRegistry(reg) && Filled(reg) != [] && NextSlot(reg, 0) == Filled(reg)[0]
  {
    FirstFilled(reg);
    SlotsAscend(reg, 0);
  }

  /**
   With k datanodes registered, a pushed file of m blocks is extended to n blocks
   as one push of n blocks would place them exactly when k is 1, or when only
   one block is added and it is the first datanode's turn.
   */
  lemma UpdatePlacement(reg: Registry, name: string, size: nat, m: nat, n: nat)
    requires InService(reg) && m < n <= MAX_FILE_BLK_COUNT
    ensures Filled(reg) != [] && ImageOk(reg, PushedImage(reg, NewImage(name, size), m))
    ensures UpdatedAsCoded(reg, PushedImage(reg, NewImage(name, size), m), n).blockList == PushedImage(reg, NewImage(name, size), n).blockList
      <==> |Filled(reg)| == 1 || (n == m + 1 && m % |Filled(reg)| == 0)
  {
    hide Filled, ImageOk, PushedImage, UpdatedAsCoded, InService, IsTurn;
    NewOk(reg, name, size);
    PushedOk(reg, NewImage(name, size), m);
    FirstSlot(reg);
    var k := |Filled(reg)|;
    var coded := UpdatedAsCoded(reg, PushedImage(reg, NewImage(name, size), m), n).blockList;
    var pushed := PushedImage(reg, NewImage(name, size), n).blockList;
    CodedEntry(reg, name, size, m, n, m);
    forall i | 0 <= i < MAX_FILE_BLK_COUNT
      ensures coded[i] == pushed[i] <==> (m <= i < n ==> IsTurn(i, k))
    {
      CodedEntry(reg, name, size, m, n, i);
    }
    assert coded == pushed <==> forall i | 0 <= i < MAX_FILE_BLK_COUNT :: coded[i] == pushed[i];
    TurnsCoincide(m, n, k);
  }

  /** It is the first datanode's turn at block i. */
  predicate IsTurn(i: nat, k: nat)
    requires k > 0
  {
    i % k == 0
  }

  lemma TurnsCoincide(m: nat, n: nat, k: nat)
    requires m < n && k > 0
    ensures (forall i | m <= i < n :: IsTurn(i, k)) <==> k == 1 || (n == m + 1 && m % k == 0)
  {
    if forall i | m <= i < n :: IsTurn(i, k) {
      assert IsTurn(m, k);
      if n > m + 1 {
        assert IsTurn(m + 1, k);
        NextDivision(m, k);
      }
    }
    if k == 1 {
      forall i | m <= i < n
        ensures IsTurn(i, k)
      {
        assert i % 1 == 0;
      }
    }
  }

  lemma CodedEntry(reg: Registry, name: string, size: nat, m: nat, n: nat, i: nat)
    requires InService(reg) && m < n <= MAX_FILE_BLK_COUNT && i < MAX_FILE_BLK_COUNT
    ensures Filled(reg) != [] && ImageOk(reg, PushedImage(reg, NewImage(name, size), m))
    ensures var coded := UpdatedAsCoded(reg, PushedImage(reg, NewImage(name, size), m), n).blockList;
      var pushed := PushedImage(reg, NewImage(name, size), n).blockList;
      && |coded| == |pushed| == MAX_FILE_BLK_COUNT
      && (coded[i] == pushed[i] <==> (m <= i < n ==> IsTurn(i, |Filled(reg)|)))
  {
    hide Filled, ImageOk, PushedImage, InService, NextSlot, SlotsAsCoded;
    NewOk(reg, name, size);
    PushedOk(reg, NewImage(name, size), m);
    FirstSlot(reg);
    PushedNames(reg, name, size, m);
    PushedBlock(reg, name, size, m, m);
    PushedBlock(reg, name, size, m, i);
    PushedBlock(reg, name, size, n, i);
    OneSlot(reg, PushedImage(reg, NewImage(name, size), m).blockList[m].dnId, n - m);
    if m <= i < n {
      SlotOfTurn(reg, i);
    }
  }

  lemma SlotOfTurn(reg: Registry, i: nat)
    requires IsRegistry(reg) && Filled(reg) != []
    ensures Filled(reg)[i % |Filled(reg)|] == Filled(reg)[0] <==> IsTurn(i, |Filled(reg)|)
  {
    Euclid(i, |Filled(reg)|);
    SameSlot(reg, i % |Filled(reg)|);
  }

  /** Behind a registered slot the search comes back to it exactly if it is the only one. */
  lemma BackToItself(reg: Registry, slot: nat)
    requires InService(reg) && slot < MAX_DATANODE_NUM && reg[slot].Some?
    ensures NextSlot(reg, slot + 1) == slot <==> |Filled(reg)| == 1
  {
    hide NextSlot, FilledFrom;
    var s := Filled(reg);
    assert slot in s;
    var j :| 0 <= j < |s| && s[j] == slot;
    NextFilled(reg, j);
  }

  /** With one datanode registered every search ends there. */
  lemma OnlyOne(reg: Registry, i: nat)
    requires InService(reg) && |Filled(reg)| == 1
    ensures NextSlot(reg, i) == Filled(reg)[0]
  {
    hide Seek, FilledFrom;
    NextIsFilled(reg, i);
    assert NextSlot(reg, i) in Filled(reg);
  }

  /** All blocks of an assignment go to one slot exactly if there is one block or one datanode. */
  lemma SameSlots(reg: Registry, i: nat, n: nat, slot: nat)
    requires InService(reg) && n > 0
    ensures (forall k | 0 <= k < n :: Assign(reg, i, n)[k] == slot) <==> NextSlot(reg, i) == slot && (n == 1 || |Filled(reg)| == 1)
  {
    hide NextSlot, Filled, Assign;
    var s := Assign(reg, i, n);
    FirstTwo(reg, i, n);
    NextIsFilled(reg, i);
    if n > 1 {
      BackToItself(reg, NextSlot(reg, i));
      if |Filled(reg)| == 1 {
        OneForAll(reg, i, n);
      }
    }
  }

  lemma FirstTwo(reg: Registry, i: nat, n: nat)
    requires IsRegistry(reg) && n > 0
    ensures Assign(reg, i, n)[0] == NextSlot(reg, i)
    ensures n > 1 ==> Assign(reg, i, n)[1] == NextSlot(reg, NextSlot(reg, i) + 1)
  {
    hide NextSlot;
    var s := NextSlot(reg, i);
    assert Assign(reg, i, n) == [s] + Assign(reg, s + 1, n - 1);
  }

  lemma {:induction false} OneForAll(reg: Registry, i: nat, n: nat)
    requires InService(reg) && |Filled(reg)| == 1
    ensures forall k | 0 <= k < n :: Assign(reg, i, n)[k] == NextSlot(reg, i)
    decreases n
  {
    hide NextSlot, Filled;
    if n != 0 {
      var s := NextSlot(reg, i);
      OneForAll(reg, s + 1, n - 1);
      OnlyOne(reg, i);
      OnlyOne(reg, s + 1);
    }
  }

  /**
   Any image, also with old entries behind its last block: the update as written
   places the new blocks as the extension does exactly when the search from the
   entry behind the last block finds the slot whose turn it is, and one block is
   added or one datanode registered.
   */
  lemma UpdatePlacementAny(reg: Registry, img: FileImage, n: nat)
    requires InService(reg) && ImageOk(reg, img) && img.blocknum < n <= MAX_FILE_BLK_COUNT
    ensures UpdatedAsCoded(reg, img, n).blockList == ExtendedImage(reg, img, n).blockList
      <==> (NextSlot(reg, img.blockList[img.blocknum].dnId) == NextSlot(reg, Behind(img))
        && (n == img.blocknum + 1 || |Filled(reg)| == 1))
  {
    hide NextSlot, Assign, SlotsAsCoded, Filled, Behind;
    var m := img.blocknum;
    var left, slot := n - m, NextSlot(reg, img.blockList[m].dnId);
    OneSlot(reg, img.blockList[m].dnId, left);
    AssignFills(reg, Behind(img), left);
    SameSlots(reg, Behind(img), left, slot);
    var coded, right, slots := UpdatedAsCoded(reg, img, n).blockList, ExtendedImage(reg, img, n).blockList, Assign(reg, Behind(img), left);
    forall i | 0 <= i < |coded|
      ensures coded[i] == right[i] <==> (m <= i < n ==> slots[i - m] == slot)
    {
    }
    if coded == right {
      forall k | 0 <= k < left
        ensures slots[k] == slot
      {
        assert coded[m + k] == right[m + k];
      }
    } else {
      var i :| 0 <= i < |coded| && coded[i] != right[i];
      assert m <= i < n && slots[i - m] != slot;
      assert !forall k | 0 <= k < left :: slots[k] == slot;
    }
    assert coded == right <==> forall k | 0 <= k < left :: slots[k] == slot;
  }

  lemma PushedNames(reg: Registry, name: string, size: nat, m: nat)
    requires InService(reg) && m <= MAX_FILE_BLK_COUNT
    ensures var img := PushedImage(reg, NewImage(name, size), m); img.filename == name && img.blocknum == m
  {
  }

  lemma SameSlot(reg: Registry, j: nat)
    requires IsRegistry(reg) && j < |Filled(reg)|
    ensures Filled(reg)[j] == Filled(reg)[0] <==> j == 0
  {
  }

  // ---- get_file_receivers for a file that is there (202-204) ----

  /** A file can be pushed once more at the same size exactly when twice its blocks fit in the block list. */
  lemma PushTwice(reg: Registry, name: string, size: nat, n: nat)
    requires InService(reg) && n <= MAX_FILE_BLK_COUNT
    ensures Takes(PushedImage(reg, NewImage(name, size), n), n) <==> 2 * n <= MAX_FILE_BLK_COUNT
  {
    AssignFills(reg, 0, n);
  }

  // ---- modify_file (PA3/client/dfs_client.c:65-96) ----

  /** The packets modify_file sends as written: the block index does not move. */
  ghost function PacketsAsCoded(img: FileImage, data: seq<byte>, first: nat, pos: nat, n: nat): (s: seq<Packet>)
    requires first < |img.blockList|
    ensures |s| == n
    ensures forall i | 0 <= i < n :: s[i] == CreatePacket(img.blockList[first], PieceAt(data, pos + i * DFS_BLOCK_SIZE))
  {
    seq(n, i requires 0 <= i => CreatePacket(img.blockList[first], PieceAt(data, pos + i * DFS_BLOCK_SIZE)))
  }

  /** The pieces go to their own blocks exactly when there is one. */
  lemma ModifiesOneBlock(reg: Registry, img: FileImage, data: seq<byte>, first: nat, pos: nat, n: nat)
    requires ImageOk(reg, img) && first + n <= img.blocknum && n > 0
    ensures img.blocknum <= |img.blockList|
    ensures PacketsAsCoded(img, data, first, pos, n) == Packets(img, data, first, pos, n) <==> n == 1
  {
    hide PieceAt;
    if n > 1 {
      assert BlockOk(reg, img.filename, first, img.blockList[first]) && BlockOk(reg, img.filename, first + 1, img.blockList[first + 1]);
      assert PacketsAsCoded(img, data, first, pos, n)[1].block != Packets(img, data, first, pos, n)[1].block;
    }
  }

  /** The bytes of a modification land at their own addresses exactly when it begins at a block. */
  lemma ModifiesInPlace(startAddr: nat, endAddr: nat)
    requires startAddr <= endAddr
    ensures (forall p, data, x: nat | startAddr <= x <= endAddr :: ModifiedByte(p, data, startAddr, endAddr, x) == ByteAt(data, x))
      <==> startAddr % DFS_BLOCK_SIZE == 0
  {
    if startAddr % DFS_BLOCK_SIZE != 0 {
      var data := seq(startAddr, (i: nat) => 0) + [1];
      assert ByteAt(data, startAddr) == 1;
      assert ModifiedByte([], data, startAddr, endAddr, startAddr) == ByteAt(data, startAddr % DFS_BLOCK_SIZE + startAddr) == 0;
    }
  }
}
