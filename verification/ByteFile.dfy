/** The abstract file: a sequence of bytes with writes and reads at a cursor. */
module ByteFile {
  import opened Layout

  function Max(a: nat, b: nat): nat { if a < b then b else a }

  function Min(a: nat, b: nat): nat { if a < b then a else b }

  /** s with buf laid over it from position cur on; a gap before cur reads as zeros. */
  function Overwrite(s: seq<byte>, cur: nat, buf: seq<byte>): (r: seq<byte>)
    ensures |r| == Max(|s|, cur + |buf|)
    ensures forall p: nat | p < |r| :: r[p] == if cur <= p < cur + |buf| then buf[p - cur] else if p < |s| then s[p] else 0
  {
    seq(Max(|s|, cur + |buf|), p requires 0 <= p =>
      if cur <= p < cur + |buf| then buf[p - cur] else if p < |s| then s[p] else 0)
  }

  /** How many bytes a read of length bytes at cur gives. */
  function ReadLength(size: nat, cur: nat, length: nat): nat {
    if size <= cur then 0 else Min(length, size - cur)
  }

  function ReadAt(s: seq<byte>, cur: nat, length: nat): (r: seq<byte>)
    ensures |r| == ReadLength(|s|, cur, length)
  {
    if |s| <= cur then [] else s[cur..cur + ReadLength(|s|, cur, length)]
  }

  /** Reading the range that was written gives the bytes that were written. */
  lemma ReadBack(s: seq<byte>, cur: nat, buf: seq<byte>)
    ensures ReadAt(Overwrite(s, cur, buf), cur, |buf|) == buf
  {
  }

  /** A read that does not meet the written range gives what it gave before. */
  lemma ReadElsewhere(s: seq<byte>, cur: nat, buf: seq<byte>, at: nat, length: nat)
    requires at + length <= cur || cur + |buf| <= at
    requires at + length <= |s|
    ensures ReadAt(Overwrite(s, cur, buf), at, length) == ReadAt(s, at, length)
  {
  }

  /** A gap between the old end and the cursor reads as zeros. */
  lemma GapIsZero(s: seq<byte>, cur: nat, buf: seq<byte>, p: nat)
    requires |s| <= p < cur
    ensures p < |Overwrite(s, cur, buf)| && Overwrite(s, cur, buf)[p] == 0
  {
  }

  /** Writing in two pieces, one behind the other, is writing their concatenation. */
  lemma WriteInPieces(s: seq<byte>, cur: nat, a: seq<byte>, b: seq<byte>)
    ensures Overwrite(Overwrite(s, cur, a), cur + |a|, b) == Overwrite(s, cur, a + b)
  {
  }

  /** A read inside the file gives all bytes asked for, one over its end those up to the end, and one behind it none. */
  lemma ReadGives(s: seq<byte>, cur: nat, length: nat)
    ensures cur + length <= |s| ==> ReadAt(s, cur, length) == s[cur..cur + length]
    ensures cur < |s| <= cur + length ==> ReadAt(s, cur, length) == s[cur..]
    ensures cur >= |s| ==> ReadAt(s, cur, length) == []
  {
  }

  function Sum(lengths: seq<nat>): nat {
    if lengths == [] then 0 else Sum(lengths[..|lengths| - 1]) + lengths[|lengths| - 1]
  }

  /** Reads one after the other, each from where the one before has left the cursor, put together. */
  function ReadPieces(s: seq<byte>, cur: nat, lengths: seq<nat>): (r: seq<byte>)
  {
    if lengths == [] then []
    else
      var before := ReadPieces(s, cur, lengths[..|lengths| - 1]);
      before + ReadAt(s, cur + |before|, lengths[|lengths| - 1])
  }

  /** Reads in pieces make up one read, up to the end of the file. */
  lemma {:induction false} PiecesJoin(s: seq<byte>, cur: nat, lengths: seq<nat>)
    ensures ReadPieces(s, cur, lengths) == ReadAt(s, cur, Sum(lengths))
    ensures cur + Sum(lengths) <= |s| ==> ReadPieces(s, cur, lengths) == s[cur..cur + Sum(lengths)]
    ensures cur <= |s| <= cur + Sum(lengths) ==> ReadPieces(s, cur, lengths) == s[cur..]
    ensures cur >= |s| ==> ReadPieces(s, cur, lengths) == []
    decreases |lengths|
  {
    hide ReadAt;
    if lengths != [] {
      var n := |lengths| - 1;
      PiecesJoin(s, cur, lengths[..n]);
      TwoReads(s, cur, Sum(lengths[..n]), lengths[n]);
    }
    ReadGives(s, cur, Sum(lengths));
  }

  /** A read and another one from where it has left the cursor are one read. */
  lemma TwoReads(s: seq<byte>, cur: nat, m: nat, n: nat)
    ensures var first := ReadAt(s, cur, m); first + ReadAt(s, cur + |first|, n) == ReadAt(s, cur, m + n)
  {
  }
}
