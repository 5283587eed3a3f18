/** The freemap: an array of 32-bit words, one bit for each disk block. */
module Bits {

  // The word operations have names, so that a proof about masks can leave
  // their bit-level meaning out.

  function And(x: bv32, y: bv32): bv32 { x & y }

  function Or(x: bv32, y: bv32): bv32 { x | y }

  function AndNot(x: bv32, y: bv32): bv32 { x & !y }

  function Twice(x: bv32): bv32 { x << 1 }

  /** The mask that the allocator's inner loop has shifted k times from 0x1. */
  function Mask(k: nat): bv32 {
    if k == 0 then 1 else Twice(Mask(k - 1))
  }

  /** Bit k of a word, tested as the allocator tests it. */
  predicate Bit(w: bv32, k: nat) {
    And(w, Mask(k)) == Mask(k)
  }

  /** Block b is marked as used. */
  predicate Marked(words: seq<bv32>, b: nat) {
    b / 32 < |words| && Bit(words[b / 32], b % 32)
  }

  function SetMark(words: seq<bv32>, b: nat): (r: seq<bv32>)
    requires b / 32 < |words|
  {
    words[b / 32 := Or(words[b / 32], Mask(b % 32))]
  }

  function ClearMark(words: seq<bv32>, b: nat): (r: seq<bv32>)
    requires b / 32 < |words|
  {
    words[b / 32 := AndNot(words[b / 32], Mask(b % 32))]
  }

  // ---- words ----

  lemma MasksDisjointFrom(i: nat, j: nat)
    requires i < j
    ensures And(Mask(i), Mask(j)) == 0
    decreases i
  {
    hide And, Twice;
    if i == 0 {
      LowBitShiftedOut(Mask(j - 1));
    } else {
      MasksDisjointFrom(i - 1, j - 1);
      TwiceMeet(Mask(i - 1), Mask(j - 1));
    }
  }

  lemma LowBitShiftedOut(x: bv32)
    ensures And(1, Twice(x)) == 0
  {
  }

  lemma TwiceMeet(x: bv32, y: bv32)
    requires And(x, y) == 0
    ensures And(Twice(x), Twice(y)) == 0
  {
  }

  lemma MasksDisjoint(i: nat, j: nat)
    requires i != j
    ensures And(Mask(i), Mask(j)) == 0
  {
    hide Mask;
    if i < j {
      MasksDisjointFrom(i, j);
    } else {
      MasksDisjointFrom(j, i);
    }
  }

  lemma {:induction false} MaskNonZero(k: nat)
    requires k < 32
    ensures Mask(k) != 0
    decreases 32 - k
  {
    hide And;
    if k == 31 {
      assert Mask(8) == 0x100;
      assert Mask(16) == 0x1_0000;
      assert Mask(24) == 0x100_0000;
      assert Mask(31) == 0x8000_0000;
    } else {
      MaskNonZero(k + 1);
      assert Mask(k + 1) == Twice(Mask(k));
    }
  }

  lemma OtherBit(w: bv32, m: bv32, n: bv32)
    requires And(m, n) == 0
    ensures And(Or(w, m), n) == And(w, n)
  {
    assert (w | m) & n == (w & n) | (m & n);
  }

  lemma OtherBitKept(w: bv32, m: bv32, n: bv32)
    requires And(m, n) == 0
    ensures And(AndNot(w, m), n) == And(w, n)
  {
    assert (w & !m) & n == (w & n) & !(m & n);
  }

  lemma SameBit(w: bv32, m: bv32)
    ensures And(Or(w, m), m) == m
    ensures And(AndNot(w, m), m) == 0
  {
  }

  /** Setting a bit sets that bit and no other; clearing clears that bit and no other. */
  lemma BitUpdate(w: bv32, k: nat, i: nat)
    requires k < 32 && i < 32
    ensures Bit(Or(w, Mask(k)), i) <==> i == k || Bit(w, i)
    ensures Bit(AndNot(w, Mask(k)), i) <==> i != k && Bit(w, i)
  {
    hide Mask, And, Or, AndNot;
    MaskNonZero(i);
    if i == k {
      SameBit(w, Mask(k));
    } else {
      MasksDisjoint(k, i);
      OtherBit(w, Mask(k), Mask(i));
      OtherBitKept(w, Mask(k), Mask(i));
    }
  }

  /** A word meets a mask in nothing or in all of it. */
  lemma {:induction false} OneBit(x: bv32, k: nat)
    ensures And(x, Mask(k)) == 0 || And(x, Mask(k)) == Mask(k)
  {
    if k == 0 {
      LowBitOfWord(x);
    } else {
      hide And, Twice;
      OneBit(Half(x), k - 1);
      MeetTwice(x, Mask(k - 1));
    }
  }

  function Half(x: bv32): bv32 { x >> 1 }

  lemma LowBitOfWord(x: bv32)
    ensures And(x, 1) == 0 || And(x, 1) == 1
  {
  }

  lemma MeetTwice(x: bv32, m: bv32)
    ensures And(x, Twice(m)) == Twice(And(Half(x), m))
    ensures Twice(0) == 0
  {
  }

  /** The k lowest bits. */
  function Low(k: nat): bv32 {
    if k == 0 then 0 else Or(Low(k - 1), Mask(k - 1))
  }

  lemma {:induction false} LowBitsAgree(x: bv32, y: bv32, k: nat)
    requires forall i | 0 <= i < k :: Bit(x, i) <==> Bit(y, i)
    ensures And(x, Low(k)) == And(y, Low(k))
  {
    if k == 0 {
      MeetZero(x);
      MeetZero(y);
    } else {
      hide And, Or, Mask;
      LowBitsAgree(x, y, k - 1);
      OneBit(x, k - 1);
      OneBit(y, k - 1);
      assert Bit(x, k - 1) <==> Bit(y, k - 1);
      MeetJoin(x, Low(k - 1), Mask(k - 1));
      MeetJoin(y, Low(k - 1), Mask(k - 1));
    }
  }

  lemma MeetZero(x: bv32)
    ensures And(x, 0) == 0
  {
  }

  lemma MeetJoin(x: bv32, a: bv32, b: bv32)
    ensures And(x, Or(a, b)) == Or(And(x, a), And(x, b))
  {
  }

  lemma LowOnes()
    ensures Low(32) == 0xffff_ffff
  {
    hide And;
    assert Low(8) == 0xff;
    assert Low(16) == 0xffff;
    assert Low(24) == 0xff_ffff;
  }

  lemma MeetOnes(x: bv32)
    ensures And(x, 0xffff_ffff) == x
  {
  }

  /** Two words with the same 32 bits are the same word. */
  lemma WordExtensional(x: bv32, y: bv32)
    requires forall k | 0 <= k < 32 :: Bit(x, k) <==> Bit(y, k)
    ensures x == y
  {
    hide And, Mask, Low;
    LowBitsAgree(x, y, 32);
    LowOnes();
    MeetOnes(x);
    MeetOnes(y);
  }

  // ---- the whole map ----

  lemma MarkUpdate(words: seq<bv32>, b: nat, c: nat)
    requires b / 32 < |words|
    ensures Marked(SetMark(words, b), c) <==> c == b || Marked(words, c)
    ensures Marked(ClearMark(words, b), c) <==> c != b && Marked(words, c)
  {
    hide Bit, Mask, Or, AndNot;
    if c / 32 == b / 32 {
      BitUpdate(words[b / 32], b % 32, c % 32);
    }
  }

  /** Two maps of the same length that mark the same blocks are the same map. */
  lemma MapExtensional(u: seq<bv32>, w: seq<bv32>)
    requires |u| == |w|
    requires forall b: nat | b < 32 * |u| :: Marked(u, b) <==> Marked(w, b)
    ensures u == w
  {
    hide Bit;
    forall i | 0 <= i < |u|
      ensures u[i] == w[i]
    {
      forall k | 0 <= k < 32
        ensures Bit(u[i], k) <==> Bit(w[i], k)
      {
        var b := 32 * i + k;
        assert b / 32 == i && b % 32 == k;
        assert Marked(u, b) <==> Marked(w, b);
      }
      WordExtensional(u[i], w[i]);
    }
  }

  /** Freeing a block right after allocating it gives the old map back. */
  lemma FreeAfterAlloc(words: seq<bv32>, b: nat)
    requires b / 32 < |words| && !Marked(words, b)
    ensures ClearMark(SetMark(words, b), b) == words
  {
    hide Marked;
    var u := ClearMark(SetMark(words, b), b);
    forall c: nat | c < 32 * |words|
      ensures Marked(u, c) <==> Marked(words, c)
    {
      MarkUpdate(words, b, c);
      MarkUpdate(SetMark(words, b), b, c);
    }
    MapExtensional(u, words);
  }

  function MarkedSet(words: seq<bv32>): set<nat> {
    set b: nat | 0 <= b < 32 * |words| && Marked(words, b)
  }

  /** How many blocks the map leaves unmarked. */
  function FreeCount(words: seq<bv32>): int {
    32 * |words| - |MarkedSet(words)|
  }

  /** b is the first block that the map leaves unmarked. */
  ghost predicate IsLeastFree(words: seq<bv32>, b: nat) {
    && b < 32 * |words|
    && !Marked(words, b)
    && forall c: nat | c < b :: Marked(words, c)
  }

  lemma FreeCountUpdate(words: seq<bv32>, b: nat)
    requires b < 32 * |words|
    ensures !Marked(words, b) ==> FreeCount(SetMark(words, b)) == FreeCount(words) - 1
    ensures Marked(words, b) ==> FreeCount(ClearMark(words, b)) == FreeCount(words) + 1
  {
    hide Marked;
    forall c: nat
      ensures Marked(SetMark(words, b), c) <==> c == b || Marked(words, c)
      ensures Marked(ClearMark(words, b), c) <==> c != b && Marked(words, c)
    {
      MarkUpdate(words, b, c);
    }
    if Marked(words, b) {
      assert MarkedSet(words) == MarkedSet(ClearMark(words, b)) + {b};
    } else {
      assert MarkedSet(SetMark(words, b)) == MarkedSet(words) + {b};
    }
  }

  ghost function Below(n: nat): (all: set<nat>)
    ensures forall b: nat :: b in all <==> b < n
    ensures |all| == n
  {
    if n == 0 then {} else Below(n - 1) + {n - 1}
  }

  /** No block is free exactly when every block is marked. */
  lemma FreeCountPositive(words: seq<bv32>)
    ensures FreeCount(words) >= 0
    ensures FreeCount(words) == 0 <==> forall b: nat | b < 32 * |words| :: Marked(words, b)
  {
    hide Marked;
    var n := 32 * |words|;
    var all := Below(n);
    assert MarkedSet(words) <= all;
    Subset(MarkedSet(words), all);
    if forall b: nat | b < n :: Marked(words, b) {
      assert MarkedSet(words) == all;
    } else {
      var b: nat :| b < n && !Marked(words, b);
      assert b in all && b !in MarkedSet(words);
    }
  }

  lemma {:induction false} Subset<T>(a: set<T>, b: set<T>)
    requires a <= b
    ensures |a| <= |b|
    ensures |a| == |b| ==> a == b
  {
    if a != {} {
      var x :| x in a;
      Subset(a - {x}, b - {x});
      assert a == (a - {x}) + {x} && b == (b - {x}) + {x};
    }
  }
}
