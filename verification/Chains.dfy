/** How the frames of a file grow: new frames, and entries that get their content block. */
module Chains {
  import opened ByteFile
  import opened Contents
  import opened Layout
  import opened Paths
  import opened Steps
  import opened Unlinks

  /** How many of the n entries from number a on lie in the chain and have no content block. */
  function Missing(file: FileNode, a: nat, n: nat): nat
    decreases n
  {
    if n == 0 then 0 else
      (if a / FRAME_COUNT < |file.chain| && Entry(file, a) == 0 then 1 else 0) + Missing(file, a + 1, n - 1)
  }

  /** How many of the n entries from number a on lie in the chain. */
  function InChain(file: FileNode, a: nat, n: nat): nat {
    if FRAME_COUNT * |file.chain| <= a then 0 else Min(n, FRAME_COUNT * |file.chain| - a)
  }

  /** A file has the least number of frames that hold its bytes, and at least one. */
  lemma FrameCountIs(size: nat)
    ensures FrameCount(size) >= 1 && size <= 127 * 512 * FrameCount(size)
    ensures FrameCount(size) > 1 ==> size > 127 * 512 * (FrameCount(size) - 1)
  {
  }

  /** Entry number k of a range lies in the chain exactly if it is among the first ones that InChain counts. */
  lemma InChainIs(file: FileNode, a: nat, n: nat)
    ensures forall k: nat :: a <= k < a + InChain(file, a, n) <==> (a <= k < a + n && k / 127 < |file.chain|)
  {
  }

  /** The entries of a range that lie in the chain and are 0. */
  ghost function UnsetIn(file: FileNode, a: nat, n: nat): set<int> {
    set k: int | a <= k < a + n && k / 127 < |file.chain| && (k % 127 >= |file.chain[k / 127].content| || file.chain[k / 127].content[k % 127] == 0)
  }

  lemma {:induction false} MissingIs(file: FileNode, a: nat, n: nat)
    ensures Missing(file, a, n) == |UnsetIn(file, a, n)|
    decreases n
  {
    hide UnsetIn, Entry;
    NextUnset(file, a, n);
    if n != 0 {
      MissingIs(file, a + 1, n - 1);
    }
  }

  lemma NextUnset(file: FileNode, a: nat, n: nat)
    ensures n == 0 ==> UnsetIn(file, a, n) == {}
    ensures n != 0 ==> |UnsetIn(file, a, n)| == (if a / FRAME_COUNT < |file.chain| && Entry(file, a) == 0 then 1 else 0) + |UnsetIn(file, a + 1, n - 1)|
  {
    hide Entry;
    if n != 0 {
      IsUnset(file, a, n);
      var first := if a / FRAME_COUNT < |file.chain| && Entry(file, a) == 0 then {a as int} else {};
      assert UnsetIn(file, a, n) == first + UnsetIn(file, a + 1, n - 1);
    }
  }

  lemma IsUnset(file: FileNode, a: nat, n: nat)
    requires n != 0
    ensures (a as int) in UnsetIn(file, a, n) <==> a / FRAME_COUNT < |file.chain| && Entry(file, a) == 0
    ensures forall k :: k in UnsetIn(file, a, n) <==> (k == a && (a as int) in UnsetIn(file, a, n)) || k in UnsetIn(file, a + 1, n - 1)
    ensures (a as int) !in UnsetIn(file, a + 1, n - 1)
  {
  }

  /** A content block that is set is in its frame. */
  lemma EntryIs(file: FileNode, k: nat)
    requires Entry(file, k) != 0
    ensures k / 127 < |file.chain| && k % 127 < |file.chain[k / 127].content| && Entry(file, k) == file.chain[k / 127].content[k % 127]
  {
  }

  /** Byte p of a file is byte p % 512 of the block that entry p / 512 names, counted over all frames of 127 entries; without a block it is 0. */
  lemma ByteOf(d: seq<Block>, file: FileNode, p: nat)
    requires p < file.size <= 127 * 512 * |file.chain| && (forall j | 0 <= j < |file.chain| :: |file.chain[j].content| == 127)
    ensures p / (127 * 512) < |file.chain| && p / 512 % 127 < 127
    ensures var b := file.chain[p / (127 * 512)].content[p / 512 % 127];
      && (b == 0 ==> Bytes(d, file)[p] == 0)
      && (0 < b < |d| && d[b].DataBlk? && |d[b].bytes| == 512 ==> Bytes(d, file)[p] == d[b].bytes[p % 512])
  {
    assert p / 512 / 127 == p / (127 * 512);
  }

  /** Frames of the right length. */
  ghost predicate FullRows(file: FileNode) {
    forall j | 0 <= j < |file.chain| :: |file.chain[j].content| == FRAME_COUNT
  }

  /** The two files have the same frames, apart from the entries. */
  ghost predicate SameFrames(a: FileNode, b: FileNode) {
    && |a.chain| == |b.chain|
    && forall j | 0 <= j < |a.chain| :: a.chain[j].bid == b.chain[j].bid
  }

  /** b is a with the n entries from number `from` on filled; set entries stay, and so do all others. */
  ghost predicate Filled(a: FileNode, b: FileNode, from: nat, n: nat) {
    && b.name == a.name && b.size == a.size && SameFrames(a, b) && FullRows(b)
    && (forall k: nat | k / FRAME_COUNT < |a.chain| ::
          if from <= k < from + n then Entry(b, k) != 0 && (Entry(a, k) != 0 ==> Entry(b, k) == Entry(a, k))
          else Entry(b, k) == Entry(a, k))
  }

  /** b is a with a chain for the given size: the old chain first, then frames without unset entries. */
  ghost predicate Grown(a: FileNode, b: FileNode, size: nat) {
    && b.name == a.name && b.size == size && FullRows(b)
    && a.chain <= b.chain && |b.chain| == Max(|a.chain|, FrameCount(size))
    && forall j, k | |a.chain| <= j < |b.chain| && 0 <= k < FRAME_COUNT :: b.chain[j].content[k] != 0
  }

  /** Entries that two files share are missing in both or in none. */
  lemma {:induction false} MissingSame(a: FileNode, b: FileNode, from: nat, n: nat)
    requires |a.chain| == |b.chain|
    requires forall k: nat | from <= k < from + n && k / FRAME_COUNT < |a.chain| :: Entry(a, k) == Entry(b, k)
    ensures Missing(a, from, n) == Missing(b, from, n)
    decreases n
  {
    if n != 0 {
      MissingSame(a, b, from + 1, n - 1);
    }
  }

  lemma {:induction false} MissingSplit(a: FileNode, from: nat, m: nat, n: nat)
    ensures Missing(a, from, m + n) == Missing(a, from, m) + Missing(a, from + m, n)
    decreases m
  {
    hide Entry;
    if m != 0 {
      MissingSplit(a, from + 1, m - 1, n);
    }
  }

  /** The frames that a file gains have no missing entries. */
  lemma {:induction false} MissingGrown(a: FileNode, b: FileNode, size: nat, from: nat, n: nat)
    requires Grown(a, b, size)
    ensures Missing(b, from, n) == Missing(a, from, n)
    decreases n
  {
    if n != 0 {
      MissingGrown(a, b, size, from + 1, n - 1);
      var j := from / FRAME_COUNT;
      if j < |a.chain| {
        assert b.chain[j] == a.chain[j];
      } else if j < |b.chain| {
        assert b.chain[j].content[from % FRAME_COUNT] != 0;
      }
    }
  }

  /** Entries beyond the chain are not missing. */
  lemma {:induction false} MissingBeyond(a: FileNode, from: nat, n: nat)
    requires FRAME_COUNT * |a.chain| <= from
    ensures Missing(a, from, n) == 0
    decreases n
  {
    if n != 0 {
      MissingBeyond(a, from + 1, n - 1);
    }
  }

  lemma MissingInChain(a: FileNode, from: nat, n: nat)
    ensures Missing(a, from, n) == Missing(a, from, InChain(a, from, n))
  {
    var m := InChain(a, from, n);
    MissingSplit(a, from, m, n - m);
    if m < n {
      MissingBeyond(a, from + m, n - m);
    }
  }

  /** The number of blocks of a file: its inode, its frames, and the content blocks that it has. */
  function Taken(file: FileNode): int {
    1 + |file.chain| + (FRAME_COUNT * |file.chain| - Missing(file, 0, FRAME_COUNT * |file.chain|))
  }

  /** How many free blocks a write of length bytes at cur takes. */
  function WriteNeeds(file: FileNode, cur: nat, length: nat): int {
    (FRAME_COUNT + 1) * (Max(|file.chain|, FrameCount(cur + length)) - |file.chain|)
    + Missing(file, cur / BLOCK_SIZE, (cur + length) / BLOCK_SIZE - cur / BLOCK_SIZE + 1)
  }

  /** A file with n frames has at most 1 + 128 * n blocks, also while a write is under way. */
  lemma NeedsAreBounded(a: FileNode, cur: nat, length: nat)
    ensures Taken(a) + WriteNeeds(a, cur, length) <= 1 + (FRAME_COUNT + 1) * Max(|a.chain|, FrameCount(cur + length))
  {
    hide FrameCount, Missing;
    var start, total := cur / BLOCK_SIZE, (cur + length) / BLOCK_SIZE - cur / BLOCK_SIZE + 1;
    MissingInChain(a, start, total);
    var m, all := InChain(a, start, total), FRAME_COUNT * |a.chain|;
    if m != 0 {
      MissingSplit(a, 0, start, all - start);
      MissingSplit(a, start, m, all - start - m);
    }
    MissingNone(a, start);
  }

  lemma MissingNone(a: FileNode, from: nat)
    ensures Missing(a, from, 0) == 0
  {
  }

  /** A filling takes exactly the blocks that were missing. */
  lemma FillingTakes(a: FileNode, b: FileNode, from: nat, n: nat)
    requires Filled(a, b, from, n) && n == InChain(a, from, n)
    ensures Taken(b) == Taken(a) + Missing(a, from, n)
  {
    hide Missing, Filled;
    FilledChain(a, b, from, n);
    var all := FRAME_COUNT * |a.chain|;
    if n == 0 {
      MissingNone(a, from);
      FilledOutside(a, b, from, n, 0, all);
    } else {
      MissingSplit(a, 0, from, all - from);
      MissingSplit(a, from, n, all - from - n);
      MissingSplit(b, 0, from, all - from);
      MissingSplit(b, from, n, all - from - n);
      FilledOutside(a, b, from, n, 0, from);
      FilledOutside(a, b, from, n, from + n, all - from - n);
      FilledInside(a, b, from, n);
    }
  }

  lemma FilledNone(a: FileNode, from: nat)
    requires FullRows(a)
    ensures Filled(a, a, from, 0)
  {
    hide Entry;
  }

  lemma FilledChain(a: FileNode, b: FileNode, from: nat, n: nat)
    requires Filled(a, b, from, n)
    ensures |b.chain| == |a.chain|
  {
  }

  lemma FilledOutside(a: FileNode, b: FileNode, from: nat, n: nat, x: nat, m: nat)
    requires Filled(a, b, from, n) && (n == 0 || x + m <= from || from + n <= x)
    ensures Missing(a, x, m) == Missing(b, x, m)
  {
    hide Missing, Entry;
    MissingSame(a, b, x, m);
  }

  lemma FilledInside(a: FileNode, b: FileNode, from: nat, n: nat)
    requires Filled(a, b, from, n)
    ensures Missing(b, from, n) == 0
  {
    hide Missing, Entry;
    NoneMissing(b, from, n);
  }

  lemma {:induction false} NoneMissing(b: FileNode, from: nat, n: nat)
    requires forall k: nat | from <= k < from + n && k / FRAME_COUNT < |b.chain| :: Entry(b, k) != 0
    ensures Missing(b, from, n) == 0
    decreases n
  {
    hide Entry;
    if n != 0 {
      NoneMissing(b, from + 1, n - 1);
    }
  }

  /** A growth takes a frame and 127 content blocks for each new frame. */
  lemma GrowthTakes(a: FileNode, b: FileNode, size: nat)
    requires Grown(a, b, size)
    ensures Taken(b) == Taken(a) + (FRAME_COUNT + 1) * (|b.chain| - |a.chain|)
  {
    hide Missing, Grown;
    GrownChain(a, b, size);
    var m, n := FRAME_COUNT * |a.chain|, FRAME_COUNT * |b.chain|;
    MissingGrown(a, b, size, 0, n);
    MissingSplit(a, 0, m, n - m);
    MissingBeyond(a, m, n - m);
  }

  lemma GrownChain(a: FileNode, b: FileNode, size: nat)
    requires Grown(a, b, size)
    ensures |b.chain| == Max(|a.chain|, FrameCount(size))
  {
  }

  /** The new roles keep the old ones, and the added blocks belong to file f. */
  ghost predicate RolesGrow(r: map<nat, Role>, r2: map<nat, Role>, f: nat) {
    Extends(r, r2) && forall b | b in r2 && b !in r :: OfFile(r2[b], f)
  }

  lemma RolesGrowTrans(r: map<nat, Role>, r1: map<nat, Role>, r2: map<nat, Role>, f: nat)
    requires RolesGrow(r, r1, f) && RolesGrow(r1, r2, f)
    ensures RolesGrow(r, r2, f)
  {
  }

  /** Apart from the blocks of f, nothing is gained or lost. */
  lemma RolesGrowWithout(r: map<nat, Role>, r2: map<nat, Role>, f: nat)
    requires RolesGrow(r, r2, f)
    ensures Without(r2, f) == Without(r, f)
  {
  }

  lemma GrownRole(r: map<nat, Role>, r2: map<nat, Role>, f: nat)
    requires RolesGrow(r, r2, f) && f in r
    ensures f in r2 && r2[f] == r[f]
  {
  }
}
