/**
 * The two-dimensional range search of sdsl's integer wavelet tree:
 * `range_search_2d2` and its recursive worker `_range_search_2d2`.
 *
 * A query names a row window [lb, rb] and a value window [vlb, vrb]. The
 * search descends from the root; each node covers the values [ilb, irb),
 * splits at `mid`, and turns its row window into the row windows of its
 * children with four `rank1` queries on the shared bitvector. A leaf reached
 * with a non-empty row window adds one answer, reported as the pair
 * (1, path) where `path` is the leaf's value.
 */
module RangeSearch {
  import opened Rank
  import opened Layout

  function Min(x: nat, y: nat): nat { if x <= y then x else y }

  function Max(x: nat, y: nat): nat { if x >= y then x else y }

  /** The row window [lo, hi) of a child and the number of values the child holds. */
  datatype Rows = Rows(lo: nat, hi: nat, size: nat)

  /** The translated row windows of the 0-child and the 1-child of a node. */
  datatype Split = Split(zeros: Rows, ones: Rows)
  {
    /**
     * The windows of a node with `nodeSize` values and rows [lb, rb]: the
     * children share out the node's rows and values, and each child's
     * window lies inside its values.
     */
    predicate Fits(lb: nat, rb: nat, nodeSize: nat)
    {
      && zeros.lo + ones.lo == lb
      && zeros.hi + ones.hi == rb + 1
      && zeros.size + ones.size == nodeSize
      && zeros.lo <= zeros.hi <= zeros.size
      && ones.lo <= ones.hi <= ones.size
    }
  }

  /**
   * The rank arithmetic of one node stored at `offset` with `nodeSize` values:
   * the set bits before the node, before row `lb`, after row `rb` and before
   * the node's end, and the unset bits at the same places; a child's window
   * is the difference of two such counts.
   */
  function SplitRows(bits: seq<bool>, offset: nat, lb: nat, rb: nat, nodeSize: nat): (s: Split)
    requires lb <= rb < nodeSize && offset + nodeSize <= |bits|
    ensures s.Fits(lb, rb, nodeSize)
  {
    RankMonotone(bits, offset, offset + lb);
    RankMonotone(bits, offset + lb, offset + rb + 1);
    RankMonotone(bits, offset + rb + 1, offset + nodeSize);
    var onesBeforeO := Rank1(bits, offset);
    var onesBeforeLb := Rank1(bits, offset + lb);
    var onesBeforeRb := Rank1(bits, offset + rb + 1);
    var onesBeforeEnd := Rank1(bits, offset + nodeSize);
    var zerosBeforeO: nat := offset - onesBeforeO;
    var zerosBeforeLb: nat := offset + lb - onesBeforeLb;
    var zerosBeforeRb: nat := offset + rb + 1 - onesBeforeRb;
    var zerosBeforeEnd: nat := offset + nodeSize - onesBeforeEnd;
    Split(Rows(zerosBeforeLb - zerosBeforeO, zerosBeforeRb - zerosBeforeO, zerosBeforeEnd - zerosBeforeO),
          Rows(onesBeforeLb - onesBeforeO, onesBeforeRb - onesBeforeO, onesBeforeEnd - onesBeforeO))
  }

  /** The child windows as functions of the set bits counted from the node's start. */
  lemma SplitFromRanks(bits: seq<bool>, offset: nat, lb: nat, rb: nat, n: nat,
                       onesLo: nat, onesHi: nat, ones: nat, zerosLo: nat, zerosHi: nat, zeros: nat)
    requires lb <= rb < n && offset + n <= |bits|
    requires Rank1(bits, offset + lb) == Rank1(bits, offset) + onesLo && zerosLo == lb - onesLo
    requires Rank1(bits, offset + (rb + 1)) == Rank1(bits, offset) + onesHi && zerosHi == rb + 1 - onesHi
    requires Rank1(bits, offset + n) == Rank1(bits, offset) + ones && zeros == n - ones
    ensures SplitRows(bits, offset, lb, rb, n) == Split(Rows(zerosLo, zerosHi, zeros), Rows(onesLo, onesHi, ones))
  {
  }

  /**
   * The 1-child's window counts the set bits of the node before row `lb` and
   * up to row `rb`, and its size the set bits of the whole node; the 0-child's
   * are the unset bits at the same places.
   */
  lemma SplitRowsCounts(bits: seq<bool>, offset: nat, lb: nat, rb: nat, nodeSize: nat)
    requires lb <= rb < nodeSize && offset + nodeSize <= |bits|
    ensures SplitRows(bits, offset, lb, rb, nodeSize).ones.lo == CountOnes(bits[offset..offset + lb])
    ensures SplitRows(bits, offset, lb, rb, nodeSize).ones.hi == CountOnes(bits[offset..offset + rb + 1])
    ensures SplitRows(bits, offset, lb, rb, nodeSize).ones.size == CountOnes(bits[offset..offset + nodeSize])
    ensures SplitRows(bits, offset, lb, rb, nodeSize).zeros.lo == lb - CountOnes(bits[offset..offset + lb])
    ensures SplitRows(bits, offset, lb, rb, nodeSize).zeros.hi == rb + 1 - CountOnes(bits[offset..offset + rb + 1])
    ensures SplitRows(bits, offset, lb, rb, nodeSize).zeros.size == nodeSize - CountOnes(bits[offset..offset + nodeSize])
  {
    RankDifference(bits, offset, offset + lb);
    RankDifference(bits, offset, offset + rb + 1);
    RankDifference(bits, offset, offset + nodeSize);
    var onesLo, onesHi, ones :=
      CountOnes(bits[offset..offset + lb]), CountOnes(bits[offset..offset + rb + 1]), CountOnes(bits[offset..offset + nodeSize]);
    SplitFromRanks(bits, offset, lb, rb, nodeSize, onesLo, onesHi, ones, lb - onesLo, rb + 1 - onesHi, nodeSize - ones);
  }

  /**
   * The split point `(irb + ilb) >> 1` of a node of height `k > 0` covering
   * [ilb, irb) with irb = ilb + 2^k: the start of its upper half, never zero.
   */
  function Midpoint(ilb: nat, irb: nat, k: nat): (mid: nat)
    requires k > 0 && irb == ilb + Pow2(k)
    ensures mid == ilb + Pow2(k - 1)
    ensures mid >= 1
  {
    assert Pow2(k) == 2 * Pow2(k - 1);
    (irb + ilb) / 2
  }

  /** A reported answer: an element `std::pair<value_type, size_type>` of `point_vec`. */
  datatype Point = Point(first: nat, second: nat)

  /** The answers as the pairs (1, value) the search reports. */
  function Tagged(values: seq<nat>): (r: seq<Point>)
    ensures |r| == |values|
  {
    seq(|values|, i requires 0 <= i < |values| => Point(1, values[i]))
  }

  /** Each answer is reported as the pair (1, value). */
  lemma TaggedAt(values: seq<nat>, i: nat)
    requires i < |values|
    ensures Tagged(values)[i] == Point(1, values[i])
  {
  }

  lemma TaggedAppend(x: seq<nat>, y: seq<nat>)
    ensures Tagged(x + y) == Tagged(x) + Tagged(y)
  {
    forall i | 0 <= i < |x + y|
      ensures Tagged(x + y)[i] == (Tagged(x) + Tagged(y))[i]
    {
      TaggedAt(x + y, i);
      if i < |x| {
        TaggedAt(x, i);
      } else {
        TaggedAt(y, i - |x|);
      }
    }
  }

  /** What a search adds to `point_vec`: the tagged answers when reporting, nothing otherwise. */
  function Reported(report: bool, values: seq<nat>): (r: seq<Point>)
    ensures |r| == if report then |values| else 0
    ensures forall i :: 0 <= i < |r| ==> r[i] == Point(1, values[i])
  {
    if report then Tagged(values) else []
  }

  /** Reporting the answers of two searches one after the other reports their concatenation. */
  lemma ReportedAppend(points: seq<Point>, report: bool, x: seq<nat>, y: seq<nat>)
    ensures points + Reported(report, x) + Reported(report, y) == points + Reported(report, x + y)
  {
    if report {
      TaggedAppend(x, y);
    }
  }

  /** A search with no answers adds nothing. */
  lemma ReportedNone(points: seq<Point>, report: bool)
    ensures points + Reported(report, []) == points
  {
    assert Tagged([]) == [];
    assert points + [] == points;
  }

  /** The answer counter `cnt_answers` and the reported pairs `point_vec`. */
  class Answers {
    var count: nat
    var points: seq<Point>

    constructor ()
      ensures count == 0 && points == []
    {
      count := 0;
      points := [];
    }
  }

  /**
   * The wavelet tree as the search sees it: the bitvector `m_tree` holding
   * `maxLevel` levels of `size` bits each. The search only reads it.
   */
  datatype WtInt = WtInt(tree: seq<bool>, size: nat, maxLevel: nat)
  {
    ghost predicate Valid()
    {
      |tree| == maxLevel * size
    }

    /**
     * The values reported by the node at `level` covering [ilb, ilb + 2^(maxLevel - level)),
     * stored at `offset` with `nodeSize` values, for its rows [lb, rb] and values [vlb, vrb];
     * `path` is the node's value prefix.
     */
    function Search(lb: nat, rb: nat, vlb: nat, vrb: nat, level: nat, ilb: nat, nodeSize: nat, offset: nat, path: nat): (r: seq<nat>)
      requires level <= maxLevel
      requires lb <= rb ==> rb < nodeSize
      requires level < maxLevel ==> offset + nodeSize + Span(maxLevel - level - 1, size) <= |tree|
      requires ilb <= vlb <= vrb <= ilb + Pow2(maxLevel - level)
      ensures lb > rb ==> r == []
      ensures lb <= rb ==> |r| <= rb + 1 - lb
      decreases maxLevel - level, 4
    {
      if lb > rb then []
      else if level == maxLevel then [path]
      else Descend(lb, rb, vlb, vrb, level, ilb, nodeSize, offset, path)
    }

    /** The answers of an inner node: those of its 0-child followed by those of its 1-child. */
    function Descend(lb: nat, rb: nat, vlb: nat, vrb: nat, level: nat, ilb: nat, nodeSize: nat, offset: nat, path: nat): (r: seq<nat>)
      requires level < maxLevel && lb <= rb < nodeSize
      requires offset + nodeSize + Span(maxLevel - level - 1, size) <= |tree|
      requires ilb <= vlb <= vrb <= ilb + Pow2(maxLevel - level)
      ensures |r| <= rb + 1 - lb
      decreases maxLevel - level, 3
    {
      Children(lb, rb, vlb, vrb, level, ilb, nodeSize, offset, path, Midpoint(ilb, ilb + Pow2(maxLevel - level), maxLevel - level))
    }

    /** The answers of an inner node split at `mid`, after the rank queries that translate its rows. */
    function Children(lb: nat, rb: nat, vlb: nat, vrb: nat, level: nat, ilb: nat, nodeSize: nat, offset: nat, path: nat,
                      mid: nat): (r: seq<nat>)
      requires level < maxLevel && lb <= rb < nodeSize
      requires offset + nodeSize + Span(maxLevel - level - 1, size) <= |tree|
      requires ilb <= vlb <= vrb <= ilb + Pow2(maxLevel - level)
      requires mid == ilb + Pow2(maxLevel - level - 1)
      ensures |r| <= rb + 1 - lb
      decreases maxLevel - level, 2
    {
      var s := SplitRows(tree, offset, lb, rb, nodeSize);
      LeftPart(lb, rb, vlb, vrb, level, ilb, nodeSize, offset, path, mid, s)
        + RightPart(lb, rb, vlb, vrb, level, ilb, nodeSize, offset, path, mid, s)
    }

    /** An inner node's answers, with its split point `mid` and row windows `s` named. */
    lemma DescendSplits(lb: nat, rb: nat, vlb: nat, vrb: nat, level: nat, ilb: nat, nodeSize: nat, offset: nat, path: nat,
                        mid: nat, s: Split)
      requires level < maxLevel && lb <= rb < nodeSize
      requires offset + nodeSize + Span(maxLevel - level - 1, size) <= |tree|
      requires ilb <= vlb <= vrb <= ilb + Pow2(maxLevel - level)
      requires mid == ilb + Pow2(maxLevel - level - 1)
      requires s == SplitRows(tree, offset, lb, rb, nodeSize)
      ensures Descend(lb, rb, vlb, vrb, level, ilb, nodeSize, offset, path) ==
        LeftPart(lb, rb, vlb, vrb, level, ilb, nodeSize, offset, path, mid, s)
          + RightPart(lb, rb, vlb, vrb, level, ilb, nodeSize, offset, path, mid, s)
    {
    }

    /** The answers of the 0-child of an inner node, whose split point is `mid` and row windows `s`. */
    function LeftPart(lb: nat, rb: nat, vlb: nat, vrb: nat, level: nat, ilb: nat, nodeSize: nat, offset: nat, path: nat,
                      mid: nat, s: Split): (r: seq<nat>)
      requires level < maxLevel && lb <= rb < nodeSize
      requires offset + nodeSize + Span(maxLevel - level - 1, size) <= |tree|
      requires ilb <= vlb <= vrb <= ilb + Pow2(maxLevel - level)
      requires mid == ilb + Pow2(maxLevel - level - 1)
      requires s.Fits(lb, rb, nodeSize)
      ensures |r| <= s.zeros.hi - s.zeros.lo
      decreases maxLevel - level, 1
    {
      if vlb < mid && mid != 0 && s.zeros.hi != 0 then
        Search(s.zeros.lo, s.zeros.hi - 1, vlb, Min(vrb, mid - 1), level + 1, ilb, s.zeros.size, offset + size, 2 * path)
      else []
    }

    /** The answers of the 1-child of an inner node, whose split point is `mid` and row windows `s`. */
    function RightPart(lb: nat, rb: nat, vlb: nat, vrb: nat, level: nat, ilb: nat, nodeSize: nat, offset: nat, path: nat,
                       mid: nat, s: Split): (r: seq<nat>)
      requires level < maxLevel && lb <= rb < nodeSize
      requires offset + nodeSize + Span(maxLevel - level - 1, size) <= |tree|
      requires ilb <= vlb <= vrb <= ilb + Pow2(maxLevel - level)
      requires mid == ilb + Pow2(maxLevel - level - 1)
      requires s.Fits(lb, rb, nodeSize)
      ensures |r| <= s.ones.hi - s.ones.lo
      decreases maxLevel - level, 1
    {
      if vrb >= mid && s.ones.hi != 0 then
        Search(s.ones.lo, s.ones.hi - 1, Max(mid, vlb), vrb, level + 1, mid, s.ones.size, offset + size + s.zeros.size, 2 * path + 1)
      else []
    }

    /** `vrb` after the clipping to 2^maxLevel done before the descent. */
    function ClipValue(vrb: nat): (r: nat)
      ensures r <= Pow2(maxLevel)
      ensures r == vrb || r == Pow2(maxLevel)
      ensures vrb <= Pow2(maxLevel) ==> r == vrb
      ensures vrb >= Pow2(maxLevel) ==> r == Pow2(maxLevel)
    {
      if vrb > Pow2(maxLevel) then Pow2(maxLevel) else vrb
    }

    /** The values `range_search_2d2` reports for rows [lb, rb] and values [vlb, vrb]. */
    function Answer(lb: nat, rb: nat, vlb: nat, vrb: nat): (r: seq<nat>)
      requires Valid()
      requires lb <= rb ==> rb < size
      ensures vlb > ClipValue(vrb) ==> r == []
      ensures lb > rb ==> r == []
      ensures lb <= rb ==> |r| <= rb + 1 - lb
    {
      var top := ClipValue(vrb);
      if vlb > top then []
      else
        SpanIsProduct(maxLevel, size);
        Search(lb, rb, vlb, top, 0, 0, size, 0, 0)
    }

    /**
     * `_range_search_2d2`: adds the answers of the node at `level`, stored at
     * `offsets[level]`, to `acc`, using `offsets[level + 1 ..]` as scratch.
     */
    method RangeSearch2d2Rec(lb: nat, rb: nat, vlb: nat, vrb: nat, level: nat, ilb: nat, nodeSize: nat,
                             offsets: array<nat>, path: nat, acc: Answers, report: bool)
      requires offsets.Length == maxLevel + 1 && level <= maxLevel
      requires lb <= rb ==> rb < nodeSize
      requires level < maxLevel ==> offsets[level] + nodeSize + Span(maxLevel - level - 1, size) <= |tree|
      requires ilb <= vlb <= vrb <= ilb + Pow2(maxLevel - level)
      modifies offsets, acc
      ensures acc.count == old(acc.count) + |Search(lb, rb, vlb, vrb, level, ilb, nodeSize, old(offsets[level]), path)|
      ensures acc.points == old(acc.points) + Reported(report, Search(lb, rb, vlb, vrb, level, ilb, nodeSize, old(offsets[level]), path))
      ensures lb > rb ==> acc.count == old(acc.count) && acc.points == old(acc.points)
      ensures level == maxLevel && lb <= rb ==>
        && acc.count == old(acc.count) + 1
        && acc.points == old(acc.points) + (if report then [Point(1, path)] else [])
      decreases maxLevel - level, 1
    {
      if lb > rb {
        return;
      }
      if level == maxLevel {
        assert Reported(report, [path]) == if report then [Point(1, path)] else [];
        if report {
          acc.points := acc.points + [Point(1, path)];
        }
        acc.count := acc.count + 1;
        return;
      }
      var irb := ilb + Pow2(maxLevel - level);
      var mid := Midpoint(ilb, irb, maxLevel - level);
      var offset := offsets[level];
      var s := SplitRows(tree, offset, lb, rb, nodeSize);
      DescendSplits(lb, rb, vlb, vrb, level, ilb, nodeSize, offset, path, mid, s);
      VisitLeft(lb, rb, vlb, vrb, level, ilb, nodeSize, offset, offsets, path, acc, report, mid, s);
      VisitRight(lb, rb, vlb, vrb, level, ilb, nodeSize, offset, offsets, path, acc, report, mid, s);
      ReportedAppend(old(acc.points), report, LeftPart(lb, rb, vlb, vrb, level, ilb, nodeSize, offset, path, mid, s),
                     RightPart(lb, rb, vlb, vrb, level, ilb, nodeSize, offset, path, mid, s));
    }

    /**
     * The first `if` block of `_range_search_2d2`: when the value window reaches
     * below `mid`, points `offsets[level + 1]` at the 0-child and, when its row
     * window is not empty, searches it.
     */
    method VisitLeft(lb: nat, rb: nat, vlb: nat, vrb: nat, level: nat, ilb: nat, nodeSize: nat, offset: nat,
                     offsets: array<nat>, path: nat, acc: Answers, report: bool, mid: nat, s: Split)
      requires offsets.Length == maxLevel + 1
      requires level < maxLevel && lb <= rb < nodeSize
      requires offset + nodeSize + Span(maxLevel - level - 1, size) <= |tree|
      requires ilb <= vlb <= vrb <= ilb + Pow2(maxLevel - level)
      requires mid == ilb + Pow2(maxLevel - level - 1)
      requires s.Fits(lb, rb, nodeSize)
      modifies offsets, acc
      ensures acc.count == old(acc.count) + |LeftPart(lb, rb, vlb, vrb, level, ilb, nodeSize, offset, path, mid, s)|
      ensures acc.points == old(acc.points) + Reported(report, LeftPart(lb, rb, vlb, vrb, level, ilb, nodeSize, offset, path, mid, s))
      decreases maxLevel - level, 0
    {
      if vlb < mid && mid != 0 {
        offsets[level + 1] := offset + size;
        if s.zeros.hi != 0 {
          RangeSearch2d2Rec(s.zeros.lo, s.zeros.hi - 1, vlb, Min(vrb, mid - 1), level + 1, ilb, s.zeros.size,
                            offsets, 2 * path, acc, report);
        } else {
          assert LeftPart(lb, rb, vlb, vrb, level, ilb, nodeSize, offset, path, mid, s) == [];
          ReportedNone(acc.points, report);
        }
      } else {
        assert LeftPart(lb, rb, vlb, vrb, level, ilb, nodeSize, offset, path, mid, s) == [];
        ReportedNone(acc.points, report);
      }
    }

    /**
     * The second `if` block of `_range_search_2d2`: when the value window reaches
     * `mid` or above, points `offsets[level + 1]` at the 1-child and, when its row
     * window is not empty, searches it.
     */
    method VisitRight(lb: nat, rb: nat, vlb: nat, vrb: nat, level: nat, ilb: nat, nodeSize: nat, offset: nat,
                      offsets: array<nat>, path: nat, acc: Answers, report: bool, mid: nat, s: Split)
      requires offsets.Length == maxLevel + 1
      requires level < maxLevel && lb <= rb < nodeSize
      requires offset + nodeSize + Span(maxLevel - level - 1, size) <= |tree|
      requires ilb <= vlb <= vrb <= ilb + Pow2(maxLevel - level)
      requires mid == ilb + Pow2(maxLevel - level - 1)
      requires s.Fits(lb, rb, nodeSize)
      modifies offsets, acc
      ensures acc.count == old(acc.count) + |RightPart(lb, rb, vlb, vrb, level, ilb, nodeSize, offset, path, mid, s)|
      ensures acc.points == old(acc.points) + Reported(report, RightPart(lb, rb, vlb, vrb, level, ilb, nodeSize, offset, path, mid, s))
      decreases maxLevel - level, 0
    {
      if vrb >= mid {
        offsets[level + 1] := offset + size + s.zeros.size;
        if s.ones.hi != 0 {
          RangeSearch2d2Rec(s.ones.lo, s.ones.hi - 1, Max(mid, vlb), vrb, level + 1, mid, s.ones.size,
                            offsets, 2 * path + 1, acc, report);
        } else {
          assert RightPart(lb, rb, vlb, vrb, level, ilb, nodeSize, offset, path, mid, s) == [];
          ReportedNone(acc.points, report);
        }
      } else {
        assert RightPart(lb, rb, vlb, vrb, level, ilb, nodeSize, offset, path, mid, s) == [];
        ReportedNone(acc.points, report);
      }
    }

    /**
     * `range_search_2d2`: the number of answers and, when `report` is set,
     * the reported pairs, for rows [lb, rb] and values [vlb, vrb].
     */
    method RangeSearch2d2(lb: nat, rb: nat, vlb: nat, vrb: nat, report: bool := true) returns (count: nat, points: seq<Point>)
      requires Valid()
      requires lb <= rb ==> rb < size
      ensures count == |Answer(lb, rb, vlb, vrb)|
      ensures points == Reported(report, Answer(lb, rb, vlb, vrb))
      ensures vlb > ClipValue(vrb) ==> count == 0 && points == []
      ensures report ==> |points| == count
      ensures !report ==> points == []
    {
      var offsets := new nat[maxLevel + 1](_ => 0);
      offsets[0] := 0;
      var top := vrb;
      if top > Pow2(maxLevel) {
        top := Pow2(maxLevel);
      }
      if vlb > top {
        return 0, [];
      }
      var acc := new Answers();
      SpanIsProduct(maxLevel, size);
      RangeSearch2d2Rec(lb, rb, vlb, top, 0, 0, size, offsets, 0, acc, report);
      return acc.count, acc.points;
    }
  }
}
