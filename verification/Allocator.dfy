/** The search of sfs_alloc_block for the first unset bit. */
module Allocator {
  import opened Bits

  /**
   The nested word and mask loops. The words are scanned up to the bound that
   the code computes and leaves unused; past it there are no freemap words.
   */
  method FindFreeBit(freemap: array<bv32>) returns (found: bool, bid: nat)
    ensures found ==> IsLeastFree(freemap[..], bid)
    ensures !found ==> bid == 0 && forall b: nat | b < 32 * freemap.Length :: Marked(freemap[..], b)
  {
    hide And, Or, Twice, Mask;
    var word := 0;
    while word < freemap.Length
      invariant 0 <= word <= freemap.Length
      invariant forall b: nat | b < 32 * word :: Marked(freemap[..], b)
    {
      var bitmap := freemap[word];
      if !IsAllOnes(bitmap) {
        var mask: bv32 := 0x1;
        var count := 0;
        FirstMask();
        while count < 32
          invariant 0 <= count <= 32 && mask == Mask(count)
          invariant forall k | 0 <= k < count :: Bit(bitmap, k)
        {
          var result := And(bitmap, mask);
          if result == mask {
            NextMask(count);
            mask := Twice(mask);
            count := count + 1;
          } else {
            bid := 32 * word + count;
            BitsOfWord(freemap[..], word, count);
            return true, bid;
          }
        }
        AllBits(bitmap);
        assert false;
      }
      OnesMarked(freemap[..], word);
      word := word + 1;
    }
    return false, 0;
  }

  /** No bit of the word is unset; the code writes (bitmap ^ 0xffffffff) == 0. */
  predicate IsAllOnes(w: bv32) {
    w ^ 0xffff_ffff == 0
  }

  lemma FirstMask()
    ensures Mask(0) == 1
  {
  }

  lemma NextMask(k: nat)
    ensures Mask(k + 1) == Twice(Mask(k))
  {
  }

  lemma OnesAreOnes(w: bv32)
    ensures IsAllOnes(w) <==> w == 0xffff_ffff
  {
  }

  lemma OnesBit(k: nat)
    ensures Bit(0xffff_ffff, k)
  {
    hide Mask;
    OnesAnd(Mask(k));
  }

  lemma OnesAnd(m: bv32)
    ensures And(0xffff_ffff, m) == m
  {
  }

  lemma AllBits(w: bv32)
    requires forall k | 0 <= k < 32 :: Bit(w, k)
    ensures IsAllOnes(w)
  {
    hide Bit, IsAllOnes;
    forall k | 0 <= k < 32
      ensures Bit(0xffff_ffff, k)
    {
      OnesBit(k);
    }
    WordExtensional(w, 0xffff_ffff);
    OnesAreOnes(w);
  }

  lemma OnesMarked(words: seq<bv32>, word: nat)
    requires word < |words| && IsAllOnes(words[word])
    ensures forall b: nat | 32 * word <= b < 32 * word + 32 :: Marked(words, b)
  {
    hide Bit, IsAllOnes;
    OnesAreOnes(words[word]);
    forall b: nat | 32 * word <= b < 32 * word + 32
      ensures Marked(words, b)
    {
      OnesBit(b % 32);
    }
  }

  lemma BitsOfWord(words: seq<bv32>, word: nat, count: nat)
    requires word < |words| && count < 32
    requires forall b: nat | b < 32 * word :: Marked(words, b)
    requires forall k | 0 <= k < count :: Bit(words[word], k)
    requires !Bit(words[word], count)
    ensures IsLeastFree(words, 32 * word + count)
  {
    hide Bit;
    forall c: nat | c < 32 * word + count
      ensures Marked(words, c)
    {
      if c >= 32 * word {
        assert c / 32 == word && Bit(words[word], c % 32);
      }
    }
  }
}
