/**
 * What the range search computes. On the wavelet tree of a sequence `s` of
 * values below 2^maxLevel, `range_search_2d2` with rows [lb, rb] and values
 * [vlb, vrb] reports each distinct value of s[lb..rb] within [vlb, vrb]
 * exactly once, in increasing order, so the count is the number of those
 * distinct values; the one exception is the lower bound vlb = 2^maxLevel.
 */
module RangeSearchProofs {
  import opened Rank
  import opened Layout
  import opened RangeSearch

  /** Strictly increasing, hence without repetitions. */
  predicate Increasing(r: seq<nat>)
  {
    forall i, j :: 0 <= i < j < |r| ==> r[i] < r[j]
  }

  /** The values of the rows [lb, rb] of `t` (none when the window is empty). */
  function RowValues(t: seq<nat>, lb: nat, rb: nat): (r: seq<nat>)
    requires lb <= rb ==> rb < |t|
    ensures lb <= rb ==> |r| == rb + 1 - lb
    ensures lb > rb ==> r == []
  {
    if lb <= rb then t[lb..rb + 1] else []
  }

  /** The values of `t` all lie in the interval [ilb, ilb + 2^h) of a node of height `h`. */
  ghost predicate InNode(t: seq<nat>, ilb: nat, h: nat)
  {
    forall v :: v in t ==> ilb <= v < ilb + Pow2(h)
  }

  /** The least value of the node of height `h` whose value prefix is `path`: path * 2^h. */
  function Base(path: nat, h: nat): nat
    decreases h
  {
    if h == 0 then path else Base(2 * path, h - 1)
  }

  /** Raising the prefix by one moves the node's interval up by its width. */
  lemma {:induction false} BaseSucc(path: nat, h: nat)
    ensures Base(path + 1, h) == Base(path, h) + Pow2(h)
    decreases h
  {
    if h > 0 {
      BaseSucc(2 * path + 1, h - 1);
      BaseSucc(2 * path, h - 1);
    }
  }

  /** The root's prefix is 0 and its interval starts at 0. */
  lemma {:induction false} BaseZero(h: nat)
    ensures Base(0, h) == 0
  {
    if h > 0 {
      BaseZero(h - 1);
    }
  }

  /**
   * The node at `level` covering [ilb, ilb + 2^(maxLevel - level)) holds the
   * values `t`, is stored at `offset`, and its value prefix is `path`.
   */
  ghost predicate NodeAt(w: WtInt, t: seq<nat>, level: nat, ilb: nat, offset: nat, path: nat)
  {
    && level <= w.maxLevel
    && PlacedAt(w.tree, w.size, t, ilb, w.maxLevel - level, offset)
    && InNode(t, ilb, w.maxLevel - level)
    && ilb == Base(path, w.maxLevel - level)
  }

  /** The children of the node with prefix `path` have the prefixes `2 * path` and `2 * path + 1`. */
  lemma PathChildren(path: nat, h: nat)
    requires h > 0
    ensures Base(path, h) == Base(2 * path, h - 1)
    ensures Base(path, h) + Pow2(h - 1) == Base(2 * path + 1, h - 1)
  {
    BaseSucc(2 * path, h - 1);
  }

  /** Every answer lies in [lo, hi). */
  predicate Within(r: seq<nat>, lo: nat, hi: nat)
  {
    forall i :: 0 <= i < |r| ==> lo <= r[i] < hi
  }

  /** Increasing answers in [lo, m) followed by increasing answers in [m, hi) are increasing answers in [lo, hi). */
  lemma IncreasingAppend(x: seq<nat>, y: seq<nat>, lo: nat, m: nat, hi: nat)
    requires Increasing(x) && Increasing(y)
    requires Within(x, lo, m) && Within(y, m, hi) && lo <= m <= hi
    ensures Increasing(x + y) && Within(x + y, lo, hi)
  {
    forall i, j | 0 <= i < j < |x + y|
      ensures (x + y)[i] < (x + y)[j]
    {
      if j < |x| {
      } else if i >= |x| {
        assert (x + y)[i] == y[i - |x|] && (x + y)[j] == y[j - |x|];
      } else {
        assert (x + y)[i] == x[i] && (x + y)[j] == y[j - |x|];
      }
    }
    forall i | 0 <= i < |x + y|
      ensures lo <= (x + y)[i] < hi
    {
      if i < |x| {
        assert (x + y)[i] == x[i];
      } else {
        assert (x + y)[i] == y[i - |x|];
      }
    }
  }

  /**
   * Leaves are visited left to right: the reported values of a node are
   * strictly increasing and lie in the node's interval, whatever the bits.
   */
  lemma {:induction false} SearchIncreasing(w: WtInt, lb: nat, rb: nat, vlb: nat, vrb: nat, level: nat, ilb: nat,
                                            nodeSize: nat, offset: nat, path: nat)
    requires level <= w.maxLevel
    requires lb <= rb ==> rb < nodeSize
    requires level < w.maxLevel ==> offset + nodeSize + Span(w.maxLevel - level - 1, w.size) <= |w.tree|
    requires ilb <= vlb <= vrb <= ilb + Pow2(w.maxLevel - level)
    requires ilb == Base(path, w.maxLevel - level)
    ensures Increasing(w.Search(lb, rb, vlb, vrb, level, ilb, nodeSize, offset, path))
    ensures Within(w.Search(lb, rb, vlb, vrb, level, ilb, nodeSize, offset, path), ilb, ilb + Pow2(w.maxLevel - level))
    decreases w.maxLevel - level, 1
  {
    if lb <= rb && level < w.maxLevel {
      var h := w.maxLevel - level;
      var mid := ilb + Pow2(h - 1);
      var s := SplitRows(w.tree, offset, lb, rb, nodeSize);
      w.DescendSplits(lb, rb, vlb, vrb, level, ilb, nodeSize, offset, path, mid, s);
      LeftIncreasing(w, lb, rb, vlb, vrb, level, ilb, nodeSize, offset, path, mid, s);
      RightIncreasing(w, lb, rb, vlb, vrb, level, ilb, nodeSize, offset, path, mid, s);
      IncreasingAppend(w.LeftPart(lb, rb, vlb, vrb, level, ilb, nodeSize, offset, path, mid, s),
                       w.RightPart(lb, rb, vlb, vrb, level, ilb, nodeSize, offset, path, mid, s),
                       ilb, mid, ilb + Pow2(h));
    }
  }

  /** The answers of the 0-child are increasing and lie in [ilb, mid). */
  lemma {:induction false} LeftIncreasing(w: WtInt, lb: nat, rb: nat, vlb: nat, vrb: nat, level: nat, ilb: nat,
                                          nodeSize: nat, offset: nat, path: nat, mid: nat, s: Split)
    requires level < w.maxLevel && lb <= rb < nodeSize
    requires offset + nodeSize + Span(w.maxLevel - level - 1, w.size) <= |w.tree|
    requires ilb <= vlb <= vrb <= ilb + Pow2(w.maxLevel - level)
    requires mid == ilb + Pow2(w.maxLevel - level - 1)
    requires s.Fits(lb, rb, nodeSize)
    requires ilb == Base(path, w.maxLevel - level)
    ensures Increasing(w.LeftPart(lb, rb, vlb, vrb, level, ilb, nodeSize, offset, path, mid, s))
    ensures Within(w.LeftPart(lb, rb, vlb, vrb, level, ilb, nodeSize, offset, path, mid, s), ilb, mid)
    decreases w.maxLevel - level, 0
  {
    if vlb < mid && s.zeros.hi != 0 {
      PathChildren(path, w.maxLevel - level);
      SearchIncreasing(w, s.zeros.lo, s.zeros.hi - 1, vlb, Min(vrb, mid - 1), level + 1, ilb, s.zeros.size,
                       offset + w.size, 2 * path);
    }
  }

  /** The answers of the 1-child are increasing and lie in [mid, ilb + 2^(maxLevel - level)). */
  lemma {:induction false} RightIncreasing(w: WtInt, lb: nat, rb: nat, vlb: nat, vrb: nat, level: nat, ilb: nat,
                                           nodeSize: nat, offset: nat, path: nat, mid: nat, s: Split)
    requires level < w.maxLevel && lb <= rb < nodeSize
    requires offset + nodeSize + Span(w.maxLevel - level - 1, w.size) <= |w.tree|
    requires ilb <= vlb <= vrb <= ilb + Pow2(w.maxLevel - level)
    requires mid == ilb + Pow2(w.maxLevel - level - 1)
    requires s.Fits(lb, rb, nodeSize)
    requires ilb == Base(path, w.maxLevel - level)
    ensures Increasing(w.RightPart(lb, rb, vlb, vrb, level, ilb, nodeSize, offset, path, mid, s))
    ensures Within(w.RightPart(lb, rb, vlb, vrb, level, ilb, nodeSize, offset, path, mid, s), mid, ilb + Pow2(w.maxLevel - level))
    decreases w.maxLevel - level, 0
  {
    if vrb >= mid && s.ones.hi != 0 {
      PathChildren(path, w.maxLevel - level);
      SearchIncreasing(w, s.ones.lo, s.ones.hi - 1, Max(mid, vlb), vrb, level + 1, mid, s.ones.size,
                       offset + w.size + s.zeros.size, 2 * path + 1);
    }
  }

  /**
   * In a node stored at `offset` whose bits are those of `t`, the set bits
   * before row `p` are the values of t[..p] that go to the 1-child, and the
   * unset bits those that go to the 0-child.
   */
  lemma {:induction false} HighRank(tree: seq<bool>, offset: nat, t: seq<nat>, mid: nat, p: nat)
    requires p <= |t| && offset + |t| <= |tree|
    requires tree[offset..offset + |t|] == Bits(t, mid)
    ensures Rank1(tree, offset + p) == Rank1(tree, offset) + |High(t[..p], mid)|
    ensures |Low(t[..p], mid)| == p - |High(t[..p], mid)|
    decreases p
  {
    PartitionSize(t[..p], mid);
    if p > 0 {
      HighRank(tree, offset, t, mid, p - 1);
      assert t[..p][..p - 1] == t[..p - 1];
      assert tree[offset + p - 1] == tree[offset..offset + |t|][p - 1];
    }
  }

  /** The ranks at the node's start, at rows lb and rb + 1, and at the node's end. */
  lemma NodeRanks(tree: seq<bool>, offset: nat, t: seq<nat>, mid: nat, lb: nat, rb: nat)
    requires lb <= rb < |t| && offset + |t| <= |tree|
    requires tree[offset..offset + |t|] == Bits(t, mid)
    ensures Rank1(tree, offset + lb) == Rank1(tree, offset) + |High(t[..lb], mid)|
    ensures |Low(t[..lb], mid)| == lb - |High(t[..lb], mid)|
    ensures Rank1(tree, offset + (rb + 1)) == Rank1(tree, offset) + |High(t[..rb + 1], mid)|
    ensures |Low(t[..rb + 1], mid)| == rb + 1 - |High(t[..rb + 1], mid)|
    ensures Rank1(tree, offset + |t|) == Rank1(tree, offset) + |High(t, mid)|
    ensures |Low(t, mid)| == |t| - |High(t, mid)|
  {
    HighRank(tree, offset, t, mid, lb);
    HighRank(tree, offset, t, mid, rb + 1);
    HighRank(tree, offset, t, mid, |t|);
    assert t[..|t|] == t;
  }

  /**
   * The rank arithmetic of a node holding `t` finds where the values of the
   * rows before `lb` and up to `rb` went in each child, and how many values
   * each child holds.
   */
  lemma ChildSplit(tree: seq<bool>, offset: nat, t: seq<nat>, mid: nat, lb: nat, rb: nat)
    requires lb <= rb < |t| && offset + |t| <= |tree|
    requires tree[offset..offset + |t|] == Bits(t, mid)
    ensures SplitRows(tree, offset, lb, rb, |t|) ==
            Split(Rows(|Low(t[..lb], mid)|, |Low(t[..rb + 1], mid)|, |Low(t, mid)|),
                  Rows(|High(t[..lb], mid)|, |High(t[..rb + 1], mid)|, |High(t, mid)|))
  {
    NodeRanks(tree, offset, t, mid, lb, rb);
    SplitFromRanks(tree, offset, lb, rb, |t|, |High(t[..lb], mid)|, |High(t[..rb + 1], mid)|, |High(t, mid)|,
                   |Low(t[..lb], mid)|, |Low(t[..rb + 1], mid)|, |Low(t, mid)|);
  }

  /** The rows [lb, rb] of a node become a contiguous window of each child, in the same order. */
  lemma PartitionWindow(t: seq<nat>, m: nat, lb: nat, rb: nat)
    requires lb <= rb < |t|
    ensures |Low(t[..lb], m)| <= |Low(t[..rb + 1], m)| <= |Low(t, m)|
    ensures |High(t[..lb], m)| <= |High(t[..rb + 1], m)| <= |High(t, m)|
    ensures Low(t, m)[|Low(t[..lb], m)|..|Low(t[..rb + 1], m)|] == Low(t[lb..rb + 1], m)
    ensures High(t, m)[|High(t[..lb], m)|..|High(t[..rb + 1], m)|] == High(t[lb..rb + 1], m)
  {
    assert t[..rb + 1] == t[..lb] + t[lb..rb + 1];
    PartitionAppend(t[..lb], t[lb..rb + 1], m);
    assert t == t[..rb + 1] + t[rb + 1..];
    PartitionAppend(t[..rb + 1], t[rb + 1..], m);
    var a, b := Low(t[..lb], m), Low(t[lb..rb + 1], m);
    assert (a + b + Low(t[rb + 1..], m))[|a|..|a| + |b|] == b;
    var c, d := High(t[..lb], m), High(t[lb..rb + 1], m);
    assert (c + d + High(t[rb + 1..], m))[|c|..|c| + |d|] == d;
  }

  /** The 0-child of a node holds the values below `mid`, one level down, with prefix `2 * path`. */
  lemma LeftChild(w: WtInt, t: seq<nat>, level: nat, ilb: nat, offset: nat, path: nat, mid: nat)
    requires NodeAt(w, t, level, ilb, offset, path) && level < w.maxLevel
    requires mid == ilb + Pow2(w.maxLevel - level - 1)
    ensures offset + |t| + Span(w.maxLevel - level - 1, w.size) <= |w.tree|
    ensures NodeAt(w, Low(t, mid), level + 1, ilb, offset + w.size, 2 * path)
  {
    PlacedNode(w.tree, w.size, t, ilb, w.maxLevel - level, offset, mid);
    PartitionMembers(t, mid);
    PathChildren(path, w.maxLevel - level);
  }

  /** The 1-child of a node holds the values from `mid` on, one level down, with prefix `2 * path + 1`. */
  lemma RightChild(w: WtInt, t: seq<nat>, level: nat, ilb: nat, offset: nat, path: nat, mid: nat)
    requires NodeAt(w, t, level, ilb, offset, path) && level < w.maxLevel
    requires mid == ilb + Pow2(w.maxLevel - level - 1)
    ensures offset + |t| + Span(w.maxLevel - level - 1, w.size) <= |w.tree|
    ensures NodeAt(w, High(t, mid), level + 1, mid, offset + w.size + |Low(t, mid)|, 2 * path + 1)
  {
    PlacedNode(w.tree, w.size, t, ilb, w.maxLevel - level, offset, mid);
    PartitionMembers(t, mid);
    PathChildren(path, w.maxLevel - level);
    assert Pow2(w.maxLevel - level) == 2 * Pow2(w.maxLevel - level - 1);
  }

  /** The values of the rows [lb, rb] below `mid` are those of the rows [lo, hi) of the 0-child. */
  lemma LeftWindow(t: seq<nat>, mid: nat, lb: nat, rb: nat, lo: nat, hi: nat)
    requires lb <= rb < |t|
    requires lo == |Low(t[..lb], mid)| && hi == |Low(t[..rb + 1], mid)|
    ensures lo <= hi <= |Low(t, mid)|
    ensures forall v :: v in Low(t, mid)[lo..hi] <==> v in RowValues(t, lb, rb) && v < mid
  {
    PartitionWindow(t, mid, lb, rb);
    PartitionMembers(t[lb..rb + 1], mid);
    assert RowValues(t, lb, rb) == t[lb..rb + 1];
  }

  /** The values of the rows [lb, rb] from `mid` on are those of the rows [lo, hi) of the 1-child. */
  lemma RightWindow(t: seq<nat>, mid: nat, lb: nat, rb: nat, lo: nat, hi: nat)
    requires lb <= rb < |t|
    requires lo == |High(t[..lb], mid)| && hi == |High(t[..rb + 1], mid)|
    ensures lo <= hi <= |High(t, mid)|
    ensures forall v :: v in High(t, mid)[lo..hi] <==> v in RowValues(t, lb, rb) && v >= mid
  {
    PartitionWindow(t, mid, lb, rb);
    PartitionMembers(t[lb..rb + 1], mid);
    assert RowValues(t, lb, rb) == t[lb..rb + 1];
  }

  /**
   * What a node reports: exactly the values of its rows [lb, rb] that lie in
   * [vlb, vrb], for a value window that starts inside the node's interval.
   */
  lemma {:induction false} SearchCorrect(w: WtInt, t: seq<nat>, lb: nat, rb: nat, vlb: nat, vrb: nat, level: nat,
                                         ilb: nat, offset: nat, path: nat)
    requires NodeAt(w, t, level, ilb, offset, path)
    requires lb <= rb ==> rb < |t|
    requires ilb <= vlb < ilb + Pow2(w.maxLevel - level) && vlb <= vrb <= ilb + Pow2(w.maxLevel - level)
    ensures forall v :: v in w.Search(lb, rb, vlb, vrb, level, ilb, |t|, offset, path) <==>
                        v in RowValues(t, lb, rb) && vlb <= v <= vrb
    decreases w.maxLevel - level, 5
  {
    if lb > rb {
    } else if level == w.maxLevel {
      LeafCorrect(w, t, lb, rb, vlb, vrb, level, ilb, offset, path);
    } else {
      DescendCorrect(w, t, lb, rb, vlb, vrb, level, ilb, offset, path);
    }
  }

  /** A leaf holds only its own value, `path`, and reports it once when its rows are not empty. */
  lemma LeafCorrect(w: WtInt, t: seq<nat>, lb: nat, rb: nat, vlb: nat, vrb: nat, level: nat,
                    ilb: nat, offset: nat, path: nat)
    requires NodeAt(w, t, level, ilb, offset, path) && level == w.maxLevel
    requires lb <= rb < |t|
    requires ilb <= vlb < ilb + Pow2(w.maxLevel - level) && vlb <= vrb <= ilb + Pow2(w.maxLevel - level)
    ensures forall v :: v in w.Search(lb, rb, vlb, vrb, level, ilb, |t|, offset, path) <==>
                        v in RowValues(t, lb, rb) && vlb <= v <= vrb
  {
    assert Pow2(w.maxLevel - level) == 1;
    assert ilb == path;
    forall v | v in RowValues(t, lb, rb)
      ensures v == ilb
    {
      var i :| 0 <= i < rb + 1 - lb && RowValues(t, lb, rb)[i] == v;
      assert v == t[lb + i] && t[lb + i] in t;
    }
    assert RowValues(t, lb, rb)[0] == t[lb] && t[lb] in RowValues(t, lb, rb);
    assert vlb == ilb;
    assert w.Search(lb, rb, vlb, vrb, level, ilb, |t|, offset, path) == [path];
  }

  /** An inner node reports what its 0-child reports followed by what its 1-child reports. */
  lemma {:induction false} DescendCorrect(w: WtInt, t: seq<nat>, lb: nat, rb: nat, vlb: nat, vrb: nat, level: nat,
                                          ilb: nat, offset: nat, path: nat)
    requires NodeAt(w, t, level, ilb, offset, path) && level < w.maxLevel
    requires lb <= rb < |t|
    requires ilb <= vlb < ilb + Pow2(w.maxLevel - level) && vlb <= vrb <= ilb + Pow2(w.maxLevel - level)
    ensures forall v :: v in w.Descend(lb, rb, vlb, vrb, level, ilb, |t|, offset, path) <==>
                        v in RowValues(t, lb, rb) && vlb <= v <= vrb
    decreases w.maxLevel - level, 4
  {
    var h := w.maxLevel - level;
    var mid := ilb + Pow2(h - 1);
    var s := SplitRows(w.tree, offset, lb, rb, |t|);
    PlacedNode(w.tree, w.size, t, ilb, w.maxLevel - level, offset, mid);
    w.DescendSplits(lb, rb, vlb, vrb, level, ilb, |t|, offset, path, mid, s);
    ChildSplit(w.tree, offset, t, mid, lb, rb);
    LeftSide(w, t, lb, rb, vlb, vrb, level, ilb, offset, path, mid, s);
    RightSide(w, t, lb, rb, vlb, vrb, level, ilb, offset, path, mid, s);
  }

  /** The 0-child of a node reports the values of its rows [lb, rb] in [vlb, vrb] below `mid`. */
  lemma {:induction false} LeftSide(w: WtInt, t: seq<nat>, lb: nat, rb: nat, vlb: nat, vrb: nat, level: nat,
                                    ilb: nat, offset: nat, path: nat, mid: nat, s: Split)
    requires NodeAt(w, t, level, ilb, offset, path) && level < w.maxLevel
    requires lb <= rb < |t|
    requires ilb <= vlb < ilb + Pow2(w.maxLevel - level) && vlb <= vrb <= ilb + Pow2(w.maxLevel - level)
    requires mid == ilb + Pow2(w.maxLevel - level - 1)
    requires s.Fits(lb, rb, |t|)
    requires s == Split(Rows(|Low(t[..lb], mid)|, |Low(t[..rb + 1], mid)|, |Low(t, mid)|),
                        Rows(|High(t[..lb], mid)|, |High(t[..rb + 1], mid)|, |High(t, mid)|))
    ensures forall v :: v in w.LeftPart(lb, rb, vlb, vrb, level, ilb, |t|, offset, path, mid, s) <==>
                        v in RowValues(t, lb, rb) && vlb <= v <= vrb && v < mid
    decreases w.maxLevel - level, 3
  {
    LeftChild(w, t, level, ilb, offset, path, mid);
    LeftWindow(t, mid, lb, rb, s.zeros.lo, s.zeros.hi);
    LeftCorrect(w, Low(t, mid), RowValues(t, lb, rb), lb, rb, vlb, vrb, level, ilb, |t|, offset, path, mid, s);
  }

  /** The 1-child of a node reports the values of its rows [lb, rb] in [vlb, vrb] from `mid` on. */
  lemma {:induction false} RightSide(w: WtInt, t: seq<nat>, lb: nat, rb: nat, vlb: nat, vrb: nat, level: nat,
                                     ilb: nat, offset: nat, path: nat, mid: nat, s: Split)
    requires NodeAt(w, t, level, ilb, offset, path) && level < w.maxLevel
    requires lb <= rb < |t|
    requires ilb <= vlb < ilb + Pow2(w.maxLevel - level) && vlb <= vrb <= ilb + Pow2(w.maxLevel - level)
    requires mid == ilb + Pow2(w.maxLevel - level - 1)
    requires s.Fits(lb, rb, |t|)
    requires s == Split(Rows(|Low(t[..lb], mid)|, |Low(t[..rb + 1], mid)|, |Low(t, mid)|),
                        Rows(|High(t[..lb], mid)|, |High(t[..rb + 1], mid)|, |High(t, mid)|))
    ensures forall v :: v in w.RightPart(lb, rb, vlb, vrb, level, ilb, |t|, offset, path, mid, s) <==>
                        v in RowValues(t, lb, rb) && vlb <= v <= vrb && v >= mid
    decreases w.maxLevel - level, 3
  {
    RightChild(w, t, level, ilb, offset, path, mid);
    RightWindow(t, mid, lb, rb, s.ones.lo, s.ones.hi);
    RightCorrect(w, High(t, mid), RowValues(t, lb, rb), lb, rb, vlb, vrb, level, ilb, |t|, offset, path, mid, s);
  }

  /** The 0-child is searched when the value window reaches below `mid` and its rows are not empty. */
  lemma LeftVisited(w: WtInt, lb: nat, rb: nat, vlb: nat, vrb: nat, level: nat, ilb: nat, nodeSize: nat, offset: nat,
                    path: nat, mid: nat, s: Split)
    requires level < w.maxLevel && lb <= rb < nodeSize
    requires offset + nodeSize + Span(w.maxLevel - level - 1, w.size) <= |w.tree|
    requires ilb <= vlb <= vrb <= ilb + Pow2(w.maxLevel - level)
    requires mid == ilb + Pow2(w.maxLevel - level - 1)
    requires s.Fits(lb, rb, nodeSize)
    requires vlb < mid && s.zeros.hi != 0
    ensures w.LeftPart(lb, rb, vlb, vrb, level, ilb, nodeSize, offset, path, mid, s) ==
            w.Search(s.zeros.lo, s.zeros.hi - 1, vlb, Min(vrb, mid - 1), level + 1, ilb, s.zeros.size, offset + w.size, 2 * path)
  {
  }

  /** Otherwise the 0-child adds nothing. */
  lemma LeftSkipped(w: WtInt, lb: nat, rb: nat, vlb: nat, vrb: nat, level: nat, ilb: nat, nodeSize: nat, offset: nat,
                    path: nat, mid: nat, s: Split)
    requires level < w.maxLevel && lb <= rb < nodeSize
    requires offset + nodeSize + Span(w.maxLevel - level - 1, w.size) <= |w.tree|
    requires ilb <= vlb <= vrb <= ilb + Pow2(w.maxLevel - level)
    requires mid == ilb + Pow2(w.maxLevel - level - 1)
    requires s.Fits(lb, rb, nodeSize)
    requires !(vlb < mid && s.zeros.hi != 0)
    ensures w.LeftPart(lb, rb, vlb, vrb, level, ilb, nodeSize, offset, path, mid, s) == []
  {
  }

  /** The 1-child is searched when the value window reaches `mid` and its rows are not empty. */
  lemma RightVisited(w: WtInt, lb: nat, rb: nat, vlb: nat, vrb: nat, level: nat, ilb: nat, nodeSize: nat, offset: nat,
                     path: nat, mid: nat, s: Split)
    requires level < w.maxLevel && lb <= rb < nodeSize
    requires offset + nodeSize + Span(w.maxLevel - level - 1, w.size) <= |w.tree|
    requires ilb <= vlb <= vrb <= ilb + Pow2(w.maxLevel - level)
    requires mid == ilb + Pow2(w.maxLevel - level - 1)
    requires s.Fits(lb, rb, nodeSize)
    requires vrb >= mid && s.ones.hi != 0
    ensures w.RightPart(lb, rb, vlb, vrb, level, ilb, nodeSize, offset, path, mid, s) ==
            w.Search(s.ones.lo, s.ones.hi - 1, Max(mid, vlb), vrb, level + 1, mid, s.ones.size,
                     offset + w.size + s.zeros.size, 2 * path + 1)
  {
  }

  /** Otherwise the 1-child adds nothing. */
  lemma RightSkipped(w: WtInt, lb: nat, rb: nat, vlb: nat, vrb: nat, level: nat, ilb: nat, nodeSize: nat, offset: nat,
                     path: nat, mid: nat, s: Split)
    requires level < w.maxLevel && lb <= rb < nodeSize
    requires offset + nodeSize + Span(w.maxLevel - level - 1, w.size) <= |w.tree|
    requires ilb <= vlb <= vrb <= ilb + Pow2(w.maxLevel - level)
    requires mid == ilb + Pow2(w.maxLevel - level - 1)
    requires s.Fits(lb, rb, nodeSize)
    requires !(vrb >= mid && s.ones.hi != 0)
    ensures w.RightPart(lb, rb, vlb, vrb, level, ilb, nodeSize, offset, path, mid, s) == []
  {
  }

  /**
   * The 0-child, holding `low` with the window's values below `mid` in its rows
   * [zeros.lo, zeros.hi), reports the values of `win` in [vlb, vrb] below `mid`.
   */
  lemma {:induction false} LeftCorrect(w: WtInt, low: seq<nat>, win: seq<nat>, lb: nat, rb: nat, vlb: nat, vrb: nat,
                                       level: nat, ilb: nat, nodeSize: nat, offset: nat, path: nat, mid: nat, s: Split)
    requires level < w.maxLevel && lb <= rb < nodeSize
    requires offset + nodeSize + Span(w.maxLevel - level - 1, w.size) <= |w.tree|
    requires ilb <= vlb < ilb + Pow2(w.maxLevel - level) && vlb <= vrb <= ilb + Pow2(w.maxLevel - level)
    requires mid == ilb + Pow2(w.maxLevel - level - 1)
    requires s.Fits(lb, rb, nodeSize) && s.zeros.size == |low|
    requires NodeAt(w, low, level + 1, ilb, offset + w.size, 2 * path)
    requires forall v :: v in low[s.zeros.lo..s.zeros.hi] <==> v in win && v < mid
    ensures forall v :: v in w.LeftPart(lb, rb, vlb, vrb, level, ilb, nodeSize, offset, path, mid, s) <==>
                        v in win && vlb <= v <= vrb && v < mid
    decreases w.maxLevel - level, 2
  {
    if vlb < mid && s.zeros.hi != 0 {
      LeftVisited(w, lb, rb, vlb, vrb, level, ilb, nodeSize, offset, path, mid, s);
      var found := w.LeftPart(lb, rb, vlb, vrb, level, ilb, nodeSize, offset, path, mid, s);
      LeftBelow(w, low, win, s.zeros.lo, s.zeros.hi, vlb, vrb, level, ilb, offset, path, mid, found);
    } else {
      LeftSkipped(w, lb, rb, vlb, vrb, level, ilb, nodeSize, offset, path, mid, s);
      if s.zeros.hi == 0 {
        assert low[s.zeros.lo..s.zeros.hi] == [];
      }
    }
  }

  /** The search of the 0-child's rows [lo, hi) finds the values of `win` in [vlb, vrb] below `mid`. */
  lemma {:induction false} LeftBelow(w: WtInt, low: seq<nat>, win: seq<nat>, lo: nat, hi: nat, vlb: nat, vrb: nat,
                                     level: nat, ilb: nat, offset: nat, path: nat, mid: nat, found: seq<nat>)
    requires level < w.maxLevel && lo <= hi && 0 < hi <= |low|
    requires ilb <= vlb < mid && vlb <= vrb
    requires mid == ilb + Pow2(w.maxLevel - level - 1)
    requires NodeAt(w, low, level + 1, ilb, offset + w.size, 2 * path)
    requires forall v :: v in low[lo..hi] <==> v in win && v < mid
    requires found == w.Search(lo, hi - 1, vlb, Min(vrb, mid - 1), level + 1, ilb, |low|, offset + w.size, 2 * path)
    ensures forall v :: v in found <==> v in win && vlb <= v <= vrb && v < mid
    decreases w.maxLevel - level, 1
  {
    assert RowValues(low, lo, hi - 1) == low[lo..hi];
    SearchCorrect(w, low, lo, hi - 1, vlb, Min(vrb, mid - 1), level + 1, ilb, offset + w.size, 2 * path);
  }

  /**
   * The 1-child, holding `high` with the window's values from `mid` on in its rows
   * [ones.lo, ones.hi), reports the values of `win` in [vlb, vrb] from `mid` on.
   */
  lemma {:induction false} RightCorrect(w: WtInt, high: seq<nat>, win: seq<nat>, lb: nat, rb: nat, vlb: nat, vrb: nat,
                                        level: nat, ilb: nat, nodeSize: nat, offset: nat, path: nat, mid: nat, s: Split)
    requires level < w.maxLevel && lb <= rb < nodeSize
    requires offset + nodeSize + Span(w.maxLevel - level - 1, w.size) <= |w.tree|
    requires ilb <= vlb < ilb + Pow2(w.maxLevel - level) && vlb <= vrb <= ilb + Pow2(w.maxLevel - level)
    requires mid == ilb + Pow2(w.maxLevel - level - 1)
    requires s.Fits(lb, rb, nodeSize) && s.ones.size == |high|
    requires NodeAt(w, high, level + 1, mid, offset + w.size + s.zeros.size, 2 * path + 1)
    requires forall v :: v in high[s.ones.lo..s.ones.hi] <==> v in win && v >= mid
    ensures forall v :: v in w.RightPart(lb, rb, vlb, vrb, level, ilb, nodeSize, offset, path, mid, s) <==>
                        v in win && vlb <= v <= vrb && v >= mid
    decreases w.maxLevel - level, 2
  {
    if vrb >= mid && s.ones.hi != 0 {
      RightVisited(w, lb, rb, vlb, vrb, level, ilb, nodeSize, offset, path, mid, s);
      var found := w.RightPart(lb, rb, vlb, vrb, level, ilb, nodeSize, offset, path, mid, s);
      RightAbove(w, high, win, s.ones.lo, s.ones.hi, vlb, vrb, level, ilb, offset + w.size + s.zeros.size, path, mid, found);
    } else {
      RightSkipped(w, lb, rb, vlb, vrb, level, ilb, nodeSize, offset, path, mid, s);
      if s.ones.hi == 0 {
        assert high[s.ones.lo..s.ones.hi] == [];
      }
    }
  }

  /** The search of the 1-child's rows [lo, hi) finds the values of `win` in [vlb, vrb] from `mid` on. */
  lemma {:induction false} RightAbove(w: WtInt, high: seq<nat>, win: seq<nat>, lo: nat, hi: nat, vlb: nat, vrb: nat,
                                      level: nat, ilb: nat, childOffset: nat, path: nat, mid: nat, found: seq<nat>)
    requires level < w.maxLevel && lo <= hi && 0 < hi <= |high|
    requires ilb <= vlb < ilb + Pow2(w.maxLevel - level) && vlb <= vrb <= ilb + Pow2(w.maxLevel - level)
    requires mid == ilb + Pow2(w.maxLevel - level - 1) && mid <= vrb
    requires NodeAt(w, high, level + 1, mid, childOffset, 2 * path + 1)
    requires forall v :: v in high[lo..hi] <==> v in win && v >= mid
    requires found == w.Search(lo, hi - 1, Max(mid, vlb), vrb, level + 1, mid, |high|, childOffset, 2 * path + 1)
    ensures forall v :: v in found <==> v in win && vlb <= v <= vrb && v >= mid
    decreases w.maxLevel - level, 1
  {
    assert Pow2(w.maxLevel - level) == 2 * Pow2(w.maxLevel - level - 1);
    assert RowValues(high, lo, hi - 1) == high[lo..hi];
    SearchCorrect(w, high, lo, hi - 1, Max(mid, vlb), vrb, level + 1, mid, childOffset, 2 * path + 1);
  }

  /** The distinct values of the rows [lb, rb] of `s` that lie in [vlb, vrb]. */
  function Matches(s: seq<nat>, lb: nat, rb: nat, vlb: nat, vrb: nat): set<nat>
    requires lb <= rb ==> rb < |s|
  {
    set v | v in RowValues(s, lb, rb) && vlb <= v <= vrb
  }

  /** The distinct values of `r`. */
  function Distinct(r: seq<nat>): set<nat>
  {
    set v | v in r
  }

  /** Appending a value adds it to the distinct values. */
  lemma DistinctSnoc(p: seq<nat>, last: nat)
    ensures Distinct(p + [last]) == Distinct(p) + {last}
  {
    assert forall v :: v in p + [last] <==> v in p || v == last;
  }

  /** The last value of an increasing sequence is none of the earlier ones. */
  lemma LastIsNew(p: seq<nat>, last: nat)
    requires Increasing(p + [last])
    ensures last !in Distinct(p)
  {
    forall v | v in p
      ensures v < last
    {
      var i :| 0 <= i < |p| && p[i] == v;
      assert (p + [last])[i] == v && (p + [last])[|p|] == last;
    }
  }

  /** A strictly increasing sequence has as many elements as distinct values. */
  lemma {:induction false} DistinctCount(r: seq<nat>)
    requires Increasing(r)
    ensures |Distinct(r)| == |r|
  {
    if |r| > 0 {
      var p, last := r[..|r| - 1], r[|r| - 1];
      assert r == p + [last];
      assert Increasing(p);
      DistinctCount(p);
      DistinctSnoc(p, last);
      LastIsNew(p, last);
    }
  }

  /** Every value of `s` is below 2^maxLevel. */
  predicate Fit(s: seq<nat>, maxLevel: nat)
  {
    forall i :: 0 <= i < |s| ==> s[i] < Pow2(maxLevel)
  }

  /** The root of the tree built from `s` holds `s`. */
  lemma RootAt(s: seq<nat>, maxLevel: nat)
    requires Fit(s, maxLevel)
    ensures WtInt(Build(s, maxLevel), |s|, maxLevel).Valid()
    ensures NodeAt(WtInt(Build(s, maxLevel), |s|, maxLevel), s, 0, 0, 0, 0)
  {
    BuildPlaced(s, maxLevel);
    BaseZero(maxLevel);
    forall v | v in s
      ensures v < Pow2(maxLevel)
    {
      var i :| 0 <= i < |s| && s[i] == v;
    }
  }

  /** The rows of `s` hold values below 2^maxLevel. */
  lemma RowsFit(s: seq<nat>, maxLevel: nat, lb: nat, rb: nat)
    requires Fit(s, maxLevel) && (lb <= rb ==> rb < |s|)
    ensures forall v :: v in RowValues(s, lb, rb) ==> v < Pow2(maxLevel)
  {
    forall v | v in RowValues(s, lb, rb)
      ensures v < Pow2(maxLevel)
    {
      var i :| 0 <= i < |RowValues(s, lb, rb)| && RowValues(s, lb, rb)[i] == v;
      assert v == s[lb + i];
    }
  }

  /**
   * `range_search_2d2` on the wavelet tree of `s` reports exactly the values
   * of the rows [lb, rb] in [vlb, vrb], for every lower bound but 2^maxLevel
   * (see `TopValueQuirk`).
   */
  lemma AnswerMembers(s: seq<nat>, maxLevel: nat, lb: nat, rb: nat, vlb: nat, vrb: nat)
    requires Fit(s, maxLevel)
    requires lb <= rb ==> rb < |s|
    requires vlb != Pow2(maxLevel)
    ensures WtInt(Build(s, maxLevel), |s|, maxLevel).Valid()
    ensures forall v :: v in WtInt(Build(s, maxLevel), |s|, maxLevel).Answer(lb, rb, vlb, vrb) <==>
                        v in RowValues(s, lb, rb) && vlb <= v <= vrb
  {
    var w := WtInt(Build(s, maxLevel), |s|, maxLevel);
    RootAt(s, maxLevel);
    RowsFit(s, maxLevel, lb, rb);
    var top := w.ClipValue(vrb);
    if vlb <= top {
      assert w.Answer(lb, rb, vlb, vrb) == w.Search(lb, rb, vlb, top, 0, 0, |s|, 0, 0);
      SearchCorrect(w, s, lb, rb, vlb, top, 0, 0, 0, 0);
    }
  }

  /** `range_search_2d2` on the wavelet tree of `s` reports its values in increasing order. */
  lemma AnswerIncreasing(s: seq<nat>, maxLevel: nat, lb: nat, rb: nat, vlb: nat, vrb: nat)
    requires Fit(s, maxLevel)
    requires lb <= rb ==> rb < |s|
    ensures WtInt(Build(s, maxLevel), |s|, maxLevel).Valid()
    ensures Increasing(WtInt(Build(s, maxLevel), |s|, maxLevel).Answer(lb, rb, vlb, vrb))
  {
    var w := WtInt(Build(s, maxLevel), |s|, maxLevel);
    RootAt(s, maxLevel);
    var top := w.ClipValue(vrb);
    if vlb <= top {
      assert w.Answer(lb, rb, vlb, vrb) == w.Search(lb, rb, vlb, top, 0, 0, |s|, 0, 0);
      SearchIncreasing(w, lb, rb, vlb, top, 0, 0, |s|, 0, 0);
    }
  }

  /**
   * `range_search_2d2` on the wavelet tree of `s`: the answers are the distinct
   * values of the rows [lb, rb] in [vlb, vrb], each once and in increasing order,
   * so the count is the number of those distinct values (for every lower bound
   * but 2^maxLevel).
   */
  lemma RangeSearchCorrect(s: seq<nat>, maxLevel: nat, lb: nat, rb: nat, vlb: nat, vrb: nat)
    requires Fit(s, maxLevel)
    requires lb <= rb ==> rb < |s|
    requires vlb != Pow2(maxLevel)
    ensures WtInt(Build(s, maxLevel), |s|, maxLevel).Valid()
    ensures forall v :: v in WtInt(Build(s, maxLevel), |s|, maxLevel).Answer(lb, rb, vlb, vrb) <==>
                        v in RowValues(s, lb, rb) && vlb <= v <= vrb
    ensures Increasing(WtInt(Build(s, maxLevel), |s|, maxLevel).Answer(lb, rb, vlb, vrb))
    ensures |WtInt(Build(s, maxLevel), |s|, maxLevel).Answer(lb, rb, vlb, vrb)| == |Matches(s, lb, rb, vlb, vrb)|
  {
    AnswerMembers(s, maxLevel, lb, rb, vlb, vrb);
    AnswerIncreasing(s, maxLevel, lb, rb, vlb, vrb);
    var r := WtInt(Build(s, maxLevel), |s|, maxLevel).Answer(lb, rb, vlb, vrb);
    DistinctCount(r);
    assert Distinct(r) == Matches(s, lb, rb, vlb, vrb);
  }

  /** Clipping: every upper value bound from 2^maxLevel on gives the answers of 2^maxLevel. */
  lemma ClipInvariant(w: WtInt, lb: nat, rb: nat, vlb: nat, vrb: nat)
    requires w.Valid() && (lb <= rb ==> rb < w.size)
    requires vrb >= Pow2(w.maxLevel)
    ensures w.Answer(lb, rb, vlb, vrb) == w.Answer(lb, rb, vlb, Pow2(w.maxLevel))
  {
  }

  /**
   * A value window [top, top] with top = ilb + 2^h, one past the node's
   * interval, still follows the 1-children down to the node's last leaf and
   * reports the value top - 1 when the rows [lb, rb] hold it.
   */
  lemma {:induction false} SearchTop(w: WtInt, t: seq<nat>, lb: nat, rb: nat, top: nat, level: nat, ilb: nat,
                                     offset: nat, path: nat)
    requires NodeAt(w, t, level, ilb, offset, path)
    requires lb <= rb ==> rb < |t|
    requires top == ilb + Pow2(w.maxLevel - level)
    ensures w.Search(lb, rb, top, top, level, ilb, |t|, offset, path) ==
            if top - 1 in RowValues(t, lb, rb) then [top - 1] else []
    decreases w.maxLevel - level, 5
  {
    if lb > rb {
    } else if level == w.maxLevel {
      assert Pow2(w.maxLevel - level) == 1;
      assert ilb == path;
      assert RowValues(t, lb, rb)[0] == t[lb] && t[lb] in t;
    } else {
      TopDescend(w, t, lb, rb, top, level, ilb, offset, path);
    }
  }

  /** At an inner node the window [top, top] skips the 0-child. */
  lemma {:induction false} TopDescend(w: WtInt, t: seq<nat>, lb: nat, rb: nat, top: nat, level: nat, ilb: nat,
                                      offset: nat, path: nat)
    requires NodeAt(w, t, level, ilb, offset, path) && level < w.maxLevel
    requires lb <= rb < |t|
    requires top == ilb + Pow2(w.maxLevel - level)
    ensures w.Descend(lb, rb, top, top, level, ilb, |t|, offset, path) ==
            if top - 1 in RowValues(t, lb, rb) then [top - 1] else []
    decreases w.maxLevel - level, 4
  {
    var mid := ilb + Pow2(w.maxLevel - level - 1);
    var s := SplitRows(w.tree, offset, lb, rb, |t|);
    PlacedNode(w.tree, w.size, t, ilb, w.maxLevel - level, offset, mid);
    w.DescendSplits(lb, rb, top, top, level, ilb, |t|, offset, path, mid, s);
    ChildSplit(w.tree, offset, t, mid, lb, rb);
    TopSide(w, t, lb, rb, top, level, ilb, offset, path, mid, s);
  }

  /** The 0-child of a node answers nothing for [top, top]; its 1-child answers as the node. */
  lemma {:induction false} TopSide(w: WtInt, t: seq<nat>, lb: nat, rb: nat, top: nat, level: nat, ilb: nat,
                                   offset: nat, path: nat, mid: nat, s: Split)
    requires NodeAt(w, t, level, ilb, offset, path) && level < w.maxLevel
    requires lb <= rb < |t|
    requires top == ilb + Pow2(w.maxLevel - level)
    requires mid == ilb + Pow2(w.maxLevel - level - 1)
    requires s.Fits(lb, rb, |t|)
    requires s == Split(Rows(|Low(t[..lb], mid)|, |Low(t[..rb + 1], mid)|, |Low(t, mid)|),
                        Rows(|High(t[..lb], mid)|, |High(t[..rb + 1], mid)|, |High(t, mid)|))
    ensures w.LeftPart(lb, rb, top, top, level, ilb, |t|, offset, path, mid, s) == []
    ensures w.RightPart(lb, rb, top, top, level, ilb, |t|, offset, path, mid, s) ==
            if top - 1 in RowValues(t, lb, rb) then [top - 1] else []
    decreases w.maxLevel - level, 3
  {
    RightChild(w, t, level, ilb, offset, path, mid);
    RightWindow(t, mid, lb, rb, s.ones.lo, s.ones.hi);
    TopRight(w, High(t, mid), RowValues(t, lb, rb), lb, rb, top, level, ilb, |t|, offset, path, mid, s);
    TopLeft(w, lb, rb, top, level, ilb, |t|, offset, path, mid, s);
  }

  /** The window [top, top] lies above `mid`, so the 0-child is not visited. */
  lemma TopLeft(w: WtInt, lb: nat, rb: nat, top: nat, level: nat, ilb: nat, nodeSize: nat, offset: nat, path: nat,
                mid: nat, s: Split)
    requires level < w.maxLevel && lb <= rb < nodeSize
    requires offset + nodeSize + Span(w.maxLevel - level - 1, w.size) <= |w.tree|
    requires top == ilb + Pow2(w.maxLevel - level)
    requires mid == ilb + Pow2(w.maxLevel - level - 1)
    requires s.Fits(lb, rb, nodeSize)
    ensures w.LeftPart(lb, rb, top, top, level, ilb, nodeSize, offset, path, mid, s) == []
  {
    assert Pow2(w.maxLevel - level) == 2 * Pow2(w.maxLevel - level - 1);
  }

  /** The 1-child, holding the window's values from `mid` on, answers [top, top]. */
  lemma {:induction false} TopRight(w: WtInt, high: seq<nat>, win: seq<nat>, lb: nat, rb: nat, top: nat, level: nat,
                                    ilb: nat, nodeSize: nat, offset: nat, path: nat, mid: nat, s: Split)
    requires level < w.maxLevel && lb <= rb < nodeSize
    requires offset + nodeSize + Span(w.maxLevel - level - 1, w.size) <= |w.tree|
    requires top == ilb + Pow2(w.maxLevel - level)
    requires mid == ilb + Pow2(w.maxLevel - level - 1)
    requires s.Fits(lb, rb, nodeSize) && s.ones.size == |high|
    requires NodeAt(w, high, level + 1, mid, offset + w.size + s.zeros.size, 2 * path + 1)
    requires forall v :: v in high[s.ones.lo..s.ones.hi] <==> v in win && v >= mid
    ensures w.RightPart(lb, rb, top, top, level, ilb, nodeSize, offset, path, mid, s) ==
            if top - 1 in win then [top - 1] else []
    decreases w.maxLevel - level, 2
  {
    assert Pow2(w.maxLevel - level) == 2 * Pow2(w.maxLevel - level - 1);
    if s.ones.hi != 0 {
      RightVisited(w, lb, rb, top, top, level, ilb, nodeSize, offset, path, mid, s);
      assert Max(mid, top) == top;
      TopAbove(w, high, win, s.ones.lo, s.ones.hi, top, level, ilb, offset + w.size + s.zeros.size, path, mid);
    } else {
      RightSkipped(w, lb, rb, top, top, level, ilb, nodeSize, offset, path, mid, s);
      assert high[s.ones.lo..s.ones.hi] == [];
    }
  }

  /** The search of the 1-child's rows [lo, hi) for [top, top] finds top - 1 when `win` holds it. */
  lemma {:induction false} TopAbove(w: WtInt, high: seq<nat>, win: seq<nat>, lo: nat, hi: nat, top: nat,
                                    level: nat, ilb: nat, childOffset: nat, path: nat, mid: nat)
    requires level < w.maxLevel && lo <= hi && 0 < hi <= |high|
    requires top == ilb + Pow2(w.maxLevel - level)
    requires mid == ilb + Pow2(w.maxLevel - level - 1)
    requires NodeAt(w, high, level + 1, mid, childOffset, 2 * path + 1)
    requires forall v :: v in high[lo..hi] <==> v in win && v >= mid
    ensures w.Search(lo, hi - 1, top, top, level + 1, mid, |high|, childOffset, 2 * path + 1) ==
            if top - 1 in win then [top - 1] else []
    decreases w.maxLevel - level, 1
  {
    assert Pow2(w.maxLevel - level) == 2 * Pow2(w.maxLevel - level - 1);
    assert top - 1 in high[lo..hi] <==> top - 1 in win;
    assert RowValues(high, lo, hi - 1) == high[lo..hi];
    SearchTop(w, high, lo, hi - 1, top, level + 1, mid, childOffset, 2 * path + 1);
  }

  /**
   * The lower bound vlb = 2^maxLevel is not rejected: the upper bound is
   * clipped to 2^maxLevel, not below it, so vlb <= vrb holds and the search
   * reports the value 2^maxLevel - 1, which is below vlb, when the rows hold it.
   */
  lemma TopValueQuirk(s: seq<nat>, maxLevel: nat, lb: nat, rb: nat, vrb: nat)
    requires Fit(s, maxLevel)
    requires lb <= rb ==> rb < |s|
    requires vrb >= Pow2(maxLevel)
    ensures WtInt(Build(s, maxLevel), |s|, maxLevel).Valid()
    ensures WtInt(Build(s, maxLevel), |s|, maxLevel).Answer(lb, rb, Pow2(maxLevel), vrb) ==
            if Pow2(maxLevel) - 1 in RowValues(s, lb, rb) then [Pow2(maxLevel) - 1] else []
  {
    var w := WtInt(Build(s, maxLevel), |s|, maxLevel);
    RootAt(s, maxLevel);
    SpanIsProduct(maxLevel, |s|);
    SearchTop(w, s, lb, rb, Pow2(maxLevel), 0, 0, 0, 0);
  }
}
