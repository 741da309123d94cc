/**
 * The layout of an integer wavelet tree (`wt_int`) over a sequence `s` of
 * values below 2^maxLevel.
 *
 * The node of height `h` that covers the values [a, a + 2^h) holds the
 * values of `s` in that interval, in their order in `s`. It splits at
 * `mid = a + 2^(h-1)`: it stores one bit per value (set iff the value is at
 * least `mid`), and its 0-child and 1-child are its values below and from
 * `mid`, each in their order in the node (a stable partition). All nodes of
 * one level are stored left to right, and the `maxLevel` levels, each `|s|`
 * bits long, are stored back to back in one bitvector.
 */
module Layout {
  import opened Rank

  function Pow2(k: nat): (r: nat)
    ensures r >= 1
  {
    if k == 0 then 1 else 2 * Pow2(k - 1)
  }

  lemma MulSucc(k: nat, n: nat)
    ensures (k + 1) * n == k * n + n
  {
  }

  /** The number of bits `k` levels of `n` positions each take up. */
  function Span(k: nat, n: nat): nat
  {
    if k == 0 then 0 else n + Span(k - 1, n)
  }

  lemma {:induction false} SpanIsProduct(k: nat, n: nat)
    ensures Span(k, n) == k * n
  {
    if k > 0 {
      SpanIsProduct(k - 1, n);
      MulSucc(k - 1, n);
    }
  }

  /** The values of `t` below `m`, in their order in `t`: the 0-child of a node split at `m`. */
  function Low(t: seq<nat>, m: nat): (r: seq<nat>)
  {
    if |t| == 0 then [] else Low(t[..|t| - 1], m) + (if t[|t| - 1] < m then [t[|t| - 1]] else [])
  }

  /** The values of `t` from `m` on, in their order in `t`: the 1-child of a node split at `m`. */
  function High(t: seq<nat>, m: nat): (r: seq<nat>)
  {
    if |t| == 0 then [] else High(t[..|t| - 1], m) + (if t[|t| - 1] >= m then [t[|t| - 1]] else [])
  }

  /** The 0-child holds exactly the node's values below `m`, the 1-child exactly those from `m` on. */
  lemma {:induction false} PartitionMembers(t: seq<nat>, m: nat)
    ensures forall v :: v in Low(t, m) <==> v in t && v < m
    ensures forall v :: v in High(t, m) <==> v in t && v >= m
    decreases |t|
  {
    if |t| > 0 {
      assert t == t[..|t| - 1] + [t[|t| - 1]];
      PartitionMembers(t[..|t| - 1], m);
    }
  }

  /** The partition is stable: splitting a concatenation splits each part. */
  lemma {:induction false} PartitionAppend(x: seq<nat>, y: seq<nat>, m: nat)
    ensures Low(x + y, m) == Low(x, m) + Low(y, m)
    ensures High(x + y, m) == High(x, m) + High(y, m)
    decreases |y|
  {
    if |y| == 0 {
      assert x + y == x;
    } else {
      assert (x + y)[..|x + y| - 1] == x + y[..|y| - 1];
      PartitionAppend(x, y[..|y| - 1], m);
    }
  }

  /** Every value goes to exactly one child. */
  lemma {:induction false} PartitionSize(t: seq<nat>, m: nat)
    ensures |Low(t, m)| + |High(t, m)| == |t|
    decreases |t|
  {
    if |t| > 0 {
      PartitionSize(t[..|t| - 1], m);
    }
  }

  /** The bits a node split at `m` stores: bit `i` is set iff `t[i]` goes to the 1-child. */
  function Bits(t: seq<nat>, m: nat): (r: seq<bool>)
    ensures |r| == |t|
  {
    seq(|t|, i requires 0 <= i < |t| => t[i] >= m)
  }

  /** The set bits of a node are its values that go to the 1-child. */
  lemma {:induction false} OnesAreHigh(t: seq<nat>, m: nat)
    ensures CountOnes(Bits(t, m)) == |High(t, m)|
    decreases |t|
  {
    if |t| > 0 {
      var k := |t| - 1;
      assert Bits(t, m)[..k] == Bits(t[..k], m);
      OnesAreHigh(t[..k], m);
    }
  }

  /**
   * Level `d` below the node of height `h` that covers [a, a + 2^h) and holds
   * the values `t`: the bits of all its descendants at that depth, left to right.
   */
  function NodeLevel(t: seq<nat>, a: nat, h: nat, d: nat): (r: seq<bool>)
    requires d < h
    ensures |r| == |t|
    decreases h
  {
    var mid := a + Pow2(h - 1);
    if d == 0 then Bits(t, mid)
    else
      PartitionSize(t, mid);
      NodeLevel(Low(t, mid), a, h - 1, d - 1) + NodeLevel(High(t, mid), mid, h - 1, d - 1)
  }

  /** The levels 0, 1, ..., h - 1 below the node of height `h` that covers [a, a + 2^h) and holds `t`. */
  function NodeLevels(t: seq<nat>, a: nat, h: nat): (r: seq<seq<bool>>)
    ensures |r| == h
  {
    seq(h, d requires 0 <= d < h => NodeLevel(t, a, h, d))
  }

  lemma NodeLevelsAt(t: seq<nat>, a: nat, h: nat, d: nat)
    requires d < h
    ensures NodeLevels(t, a, h)[d] == NodeLevel(t, a, h, d)
  {
  }

  /** Bit sequences stored back to back. */
  function Concat(ls: seq<seq<bool>>): (r: seq<bool>)
  {
    if |ls| == 0 then [] else ls[0] + Concat(ls[1..])
  }

  /** Concatenating `k` sequences of length `n` gives `k * n` bits. */
  lemma {:induction false} ConcatLength(ls: seq<seq<bool>>, n: nat)
    requires forall d :: 0 <= d < |ls| ==> |ls[d]| == n
    ensures |Concat(ls)| == |ls| * n
    decreases |ls|
  {
    if |ls| > 0 {
      ConcatLength(ls[1..], n);
      MulSucc(|ls| - 1, n);
    }
  }

  /**
   * The bitvector `m_tree` of the wavelet tree of `s` with `maxLevel` levels:
   * level `l` occupies positions [l * |s|, (l + 1) * |s|).
   */
  function Build(s: seq<nat>, maxLevel: nat): (r: seq<bool>)
    ensures |r| == maxLevel * |s|
  {
    ConcatLength(NodeLevels(s, 0, maxLevel), |s|);
    Concat(NodeLevels(s, 0, maxLevel))
  }

  /**
   * The node of height `h` that covers [a, a + 2^h) and holds the values `t`
   * is stored in `tree` at position `o` of its level, its children at the
   * matching positions of the next level (which is `n` positions further on),
   * and so on down to the leaves; the levels below it all fit in `tree`.
   */
  ghost predicate PlacedAt(tree: seq<bool>, n: nat, t: seq<nat>, a: nat, h: nat, o: nat)
    decreases h, 1
  {
    h == 0 || (o + |t| + Span(h - 1, n) <= |tree| && NodePlaced(tree, n, t, a, h, o))
  }

  /** The inner node case of `PlacedAt`: its own bits at `o`, its children placed on the next level. */
  ghost predicate NodePlaced(tree: seq<bool>, n: nat, t: seq<nat>, a: nat, h: nat, o: nat)
    decreases h, 0
  {
    h > 0 &&
    (var mid := a + Pow2(h - 1);
     && o + |t| <= |tree|
     && tree[o..o + |t|] == Bits(t, mid)
     && PlacedAt(tree, n, Low(t, mid), a, h - 1, o + n)
     && PlacedAt(tree, n, High(t, mid), mid, h - 1, o + n + |Low(t, mid)|))
  }

  /** What a placed node of height `h > 0` consists of. */
  lemma PlacedNode(tree: seq<bool>, n: nat, t: seq<nat>, a: nat, h: nat, o: nat, mid: nat)
    requires h > 0 && mid == a + Pow2(h - 1)
    requires PlacedAt(tree, n, t, a, h, o)
    ensures o + |t| + Span(h - 1, n) <= |tree| && tree[o..o + |t|] == Bits(t, mid)
    ensures PlacedAt(tree, n, Low(t, mid), a, h - 1, o + n)
    ensures PlacedAt(tree, n, High(t, mid), mid, h - 1, o + n + |Low(t, mid)|)
  {
    assert NodePlaced(tree, n, t, a, h, o);
  }

  /** The bit sequences `ls` are stored in `tree` at `o`, `o + n`, `o + 2n`, ... */
  ghost predicate Stacked(tree: seq<bool>, n: nat, o: nat, ls: seq<seq<bool>>)
    decreases |ls|, 1
  {
    |ls| == 0 || StackedHead(tree, n, o, ls)
  }

  /** The non-empty case of `Stacked`: the first sequence at `o`, the rest from `o + n` on. */
  ghost predicate StackedHead(tree: seq<bool>, n: nat, o: nat, ls: seq<seq<bool>>)
    decreases |ls|, 0
  {
    && |ls| > 0
    && o + |ls[0]| <= |tree|
    && tree[o..o + |ls[0]|] == ls[0]
    && Stacked(tree, n, o + n, ls[1..])
  }

  /** A copy of `Concat(ls)` at `o`, where every part is `n` bits long, stacks `ls` at `o`. */
  lemma {:induction false} ConcatStacked(tree: seq<bool>, n: nat, o: nat, ls: seq<seq<bool>>)
    requires forall d :: 0 <= d < |ls| ==> |ls[d]| == n
    requires o + |Concat(ls)| <= |tree| && tree[o..o + |Concat(ls)|] == Concat(ls)
    ensures Stacked(tree, n, o, ls)
    decreases |ls|
  {
    if |ls| > 0 {
      var rest := Concat(ls[1..]);
      assert Concat(ls) == ls[0] + rest;
      assert tree[o..o + n] == Concat(ls)[..n];
      assert tree[o + n..o + n + |rest|] == Concat(ls)[n..];
      ConcatStacked(tree, n, o + n, ls[1..]);
    }
  }

  /** Stacked sequences whose parts are `xs[d] + ys[d]` stack `xs` and, `k` further on, `ys`. */
  lemma {:induction false} StackedSplit(tree: seq<bool>, n: nat, o: nat, ls: seq<seq<bool>>, xs: seq<seq<bool>>, ys: seq<seq<bool>>, k: nat)
    requires |xs| == |ls| && |ys| == |ls|
    requires forall d :: 0 <= d < |ls| ==> ls[d] == xs[d] + ys[d] && |xs[d]| == k
    requires Stacked(tree, n, o, ls)
    ensures Stacked(tree, n, o, xs) && Stacked(tree, n, o + k, ys)
    decreases |ls|
  {
    if |ls| > 0 {
      assert StackedHead(tree, n, o, ls);
      var x, y := xs[0], ys[0];
      assert tree[o..o + |x| + |y|] == x + y;
      assert tree[o..o + k] == tree[o..o + |x| + |y|][..k];
      assert tree[o + k..o + k + |y|] == tree[o..o + |x| + |y|][k..];
      StackedSplit(tree, n, o + n, ls[1..], xs[1..], ys[1..], k);
      assert o + k + n == o + n + k;
    }
  }

  /** The last of `k` stacked parts of length `m` ends within `tree`. */
  lemma {:induction false} StackedFits(tree: seq<bool>, n: nat, o: nat, ls: seq<seq<bool>>, m: nat)
    requires |ls| > 0
    requires forall d :: 0 <= d < |ls| ==> |ls[d]| == m
    requires Stacked(tree, n, o, ls)
    ensures o + m + Span(|ls| - 1, n) <= |tree|
    decreases |ls|
  {
    assert StackedHead(tree, n, o, ls);
    if |ls| > 1 {
      StackedFits(tree, n, o + n, ls[1..], m);
    }
  }

  /** Level `d + 1` below a node is level `d` below its 0-child followed by level `d` below its 1-child. */
  lemma LevelsSplit(t: seq<nat>, a: nat, h: nat, mid: nat)
    requires h > 0 && mid == a + Pow2(h - 1)
    ensures forall d :: 0 <= d < h - 1 ==>
      && NodeLevels(t, a, h)[1..][d] == NodeLevels(Low(t, mid), a, h - 1)[d] + NodeLevels(High(t, mid), mid, h - 1)[d]
      && |NodeLevels(Low(t, mid), a, h - 1)[d]| == |Low(t, mid)|
  {
    forall d | 0 <= d < h - 1
      ensures NodeLevels(t, a, h)[1..][d] == NodeLevels(Low(t, mid), a, h - 1)[d] + NodeLevels(High(t, mid), mid, h - 1)[d]
      ensures |NodeLevels(Low(t, mid), a, h - 1)[d]| == |Low(t, mid)|
    {
      NodeLevelsAt(t, a, h, d + 1);
      NodeLevelsAt(Low(t, mid), a, h - 1, d);
      NodeLevelsAt(High(t, mid), mid, h - 1, d);
    }
  }

  /** When the levels of a node of height `h > 0` are stacked at `o`, its own bits are at `o`. */
  lemma NodeStacked(tree: seq<bool>, n: nat, t: seq<nat>, a: nat, h: nat, o: nat, mid: nat)
    requires h > 0 && mid == a + Pow2(h - 1)
    requires Stacked(tree, n, o, NodeLevels(t, a, h))
    ensures o + |t| + Span(h - 1, n) <= |tree|
    ensures tree[o..o + |t|] == Bits(t, mid)
  {
    StackedFits(tree, n, o, NodeLevels(t, a, h), |t|);
    assert StackedHead(tree, n, o, NodeLevels(t, a, h));
    NodeLevelsAt(t, a, h, 0);
  }

  /** When the levels of a node of height `h > 0` are stacked at `o`, its children's are stacked on the next level. */
  lemma ChildrenStacked(tree: seq<bool>, n: nat, t: seq<nat>, a: nat, h: nat, o: nat, mid: nat)
    requires h > 0 && mid == a + Pow2(h - 1)
    requires Stacked(tree, n, o, NodeLevels(t, a, h))
    ensures Stacked(tree, n, o + n, NodeLevels(Low(t, mid), a, h - 1))
    ensures Stacked(tree, n, o + n + |Low(t, mid)|, NodeLevels(High(t, mid), mid, h - 1))
  {
    LevelsSplit(t, a, h, mid);
    StackedSplit(tree, n, o + n, NodeLevels(t, a, h)[1..], NodeLevels(Low(t, mid), a, h - 1),
                 NodeLevels(High(t, mid), mid, h - 1), |Low(t, mid)|);
  }

  /** A node of height `h > 0` is placed at `o` when its bits are there and its children are placed below it. */
  lemma PlacedIntro(tree: seq<bool>, n: nat, t: seq<nat>, a: nat, h: nat, o: nat, mid: nat)
    requires h > 0 && mid == a + Pow2(h - 1)
    requires o + |t| + Span(h - 1, n) <= |tree| && tree[o..o + |t|] == Bits(t, mid)
    requires PlacedAt(tree, n, Low(t, mid), a, h - 1, o + n)
    requires PlacedAt(tree, n, High(t, mid), mid, h - 1, o + n + |Low(t, mid)|)
    ensures PlacedAt(tree, n, t, a, h, o)
  {
    assert NodePlaced(tree, n, t, a, h, o);
  }

  /** A node whose levels are stacked `n` apart from `o` on is placed at `o`. */
  lemma {:induction false} PlacedFromStacked(tree: seq<bool>, n: nat, t: seq<nat>, a: nat, h: nat, o: nat)
    requires Stacked(tree, n, o, NodeLevels(t, a, h))
    ensures PlacedAt(tree, n, t, a, h, o)
    decreases h
  {
    if h > 0 {
      var mid := a + Pow2(h - 1);
      NodeStacked(tree, n, t, a, h, o, mid);
      ChildrenStacked(tree, n, t, a, h, o, mid);
      PlacedFromStacked(tree, n, Low(t, mid), a, h - 1, o + n);
      PlacedFromStacked(tree, n, High(t, mid), mid, h - 1, o + n + |Low(t, mid)|);
      PlacedIntro(tree, n, t, a, h, o, mid);
    }
  }

  /** The built bitvector places the root, which holds all of `s`, at position 0. */
  lemma BuildPlaced(s: seq<nat>, maxLevel: nat)
    ensures PlacedAt(Build(s, maxLevel), |s|, s, 0, maxLevel, 0)
  {
    var tree := Build(s, maxLevel);
    var ls := NodeLevels(s, 0, maxLevel);
    assert tree[0..|tree|] == tree;
    ConcatStacked(tree, |s|, 0, ls);
    PlacedFromStacked(tree, |s|, s, 0, maxLevel, 0);
  }
}
