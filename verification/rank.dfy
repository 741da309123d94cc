/**
 * The rank support of the wavelet tree's bitvector: `rank1(i)` is the number
 * of set bits in positions [0, i). The succinct block/superblock structure
 * that answers it in constant time is abstracted to this count.
 */
module Rank {

  /** Number of set bits in `s`. */
  function CountOnes(s: seq<bool>): (r: nat)
    ensures r <= |s|
  {
    if |s| == 0 then 0 else CountOnes(s[..|s| - 1]) + (if s[|s| - 1] then 1 else 0)
  }

  /** Counting set bits distributes over concatenation. */
  lemma {:induction false} CountOnesAppend(x: seq<bool>, y: seq<bool>)
    ensures CountOnes(x + y) == CountOnes(x) + CountOnes(y)
    decreases |y|
  {
    if |y| == 0 {
      assert x + y == x;
    } else {
      assert (x + y)[..|x + y| - 1] == x + y[..|y| - 1];
      CountOnesAppend(x, y[..|y| - 1]);
    }
  }

  /** `rank1(i)`: the set bits of `bits` strictly before position `i`. */
  function Rank1(bits: seq<bool>, i: nat): (r: nat)
    requires i <= |bits|
    ensures r <= i
  {
    if i == 0 then 0 else Rank1(bits, i - 1) + (if bits[i - 1] then 1 else 0)
  }

  /** `rank1(i)` counts the set bits of the prefix of length `i`. */
  lemma {:induction false} RankIsCount(bits: seq<bool>, i: nat)
    requires i <= |bits|
    ensures Rank1(bits, i) == CountOnes(bits[..i])
  {
    if i > 0 {
      RankIsCount(bits, i - 1);
      assert bits[..i][..i - 1] == bits[..i - 1];
    }
  }

  /** The difference of two ranks counts the set bits between the two positions. */
  lemma RankDifference(bits: seq<bool>, i: nat, j: nat)
    requires i <= j <= |bits|
    ensures Rank1(bits, j) == Rank1(bits, i) + CountOnes(bits[i..j])
  {
    RankIsCount(bits, i);
    RankIsCount(bits, j);
    assert bits[..j] == bits[..i] + bits[i..j];
    CountOnesAppend(bits[..i], bits[i..j]);
  }

  /** Ranks grow by at most one per position. */
  lemma {:induction false} RankMonotone(bits: seq<bool>, i: nat, j: nat)
    requires i <= j <= |bits|
    ensures Rank1(bits, i) <= Rank1(bits, j) <= Rank1(bits, i) + (j - i)
    decreases j - i
  {
    if i < j {
      RankMonotone(bits, i, j - 1);
    }
  }
}
