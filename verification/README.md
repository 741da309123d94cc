# Two-dimensional range search on sdsl's integer wavelet tree

This project models `range_search_2d2` and its recursive worker
`_range_search_2d2` from sdsl's integer wavelet tree (`wt_int`), and proves
properties of the model.

The tree stores a sequence of integers below 2^`m_max_level` as one
bitvector `m_tree`. It has `m_max_level` levels of `m_size` bits each. A node
covers the values [ilb, ilb + 2^h) and splits them at `mid`. Its bits are set
for the values from `mid` on. The node's 0-child holds its values below `mid`
and its 1-child holds the rest, each in their original order. A query names a
row window [lb, rb] and a value window [vlb, vrb]. The search clips vrb to
2^`m_max_level`, descends from the root, and translates the row window into
each child's window with four `rank1` queries. When it reaches a leaf with a
non-empty row window, it counts one answer. When `report` is set, it also
appends the pair (1, path), where `path` is the leaf's value.

Files:

- `rank.dfy` (module `Rank`): `rank1` as a count of set bits.
- `layout.dfy` (module `Layout`): how the nodes are laid out in `m_tree`.
  `Build` is a reference construction of that bitvector, and `PlacedAt` says
  where a node's bits and its descendants' bits are stored.
- `wt_int.dfy` (module `RangeSearch`): the search itself.
  - `Search` and its helpers give the values a node reports, as functions.
  - `RangeSearch2d2Rec` is the imperative recursion. It updates the answer
    accumulator `Answers` (`cnt_answers`, `point_vec`) and the `offsets`
    scratch array.
  - `RangeSearch2d2` is the entry point.
  - Each method is proved to match the functions.
- `proofs.dfy` (module `RangeSearchProofs`): what the search computes on the
  tree built from a sequence.

Main results:

- **`RangeSearchCorrect`**: on the tree of `s`, the answers are exactly the
  distinct values of `s[lb..rb]` within [vlb, vrb], in strictly increasing
  order. The count is therefore the number of those distinct values.
- **`TopValueQuirk`**: the lower bound vlb = 2^`m_max_level` is the single
  exception. The upper bound is clipped to 2^`m_max_level` itself, so
  `vlb > vrb` does not catch this case. The search
  then follows the 1-children to the last leaf and reports 2^`m_max_level` - 1
  if the rows hold it, although that value lies below vlb.

Three details of the code in `sdsl-files/wt_int.hpp` decide what the search returns:

- vrb is clipped to 2^`m_max_level` (lines 86-87).
- The count goes up once per leaf reached (line 108), so it is the number of
  distinct values in the window.
- Each reported pair is (1, value): the constant 1 comes first and the
  leaf's value second (line 106).

## Model

| member | source | states |
|---|---|---|
| `Rank.Rank1` | sdsl-files/wt_int.hpp:116-120 | `rank1(i)` is at most `i`, the number of positions it counts |
| `Rank.RankIsCount` | sdsl-files/wt_int.hpp:116-120 | `rank1(i)` is the number of set bits among the first `i` bits |
| `Rank.RankDifference` | sdsl-files/wt_int.hpp:121-124 | the difference of two ranks counts the set bits between the two positions |
| `RangeSearch.SplitRows` | sdsl-files/wt_int.hpp:116-135 | no subtraction of the rank arithmetic underflows; the children's windows split the node's rows lb and rb + 1 and its size between them, and each child's window lies within that child's size |
| `RangeSearch.SplitRowsCounts` | sdsl-files/wt_int.hpp:116-135 | the 1-child's window and size count the set bits of the node before row lb, up to row rb and in all; the 0-child's count the unset bits |
| `RangeSearch.Midpoint` | sdsl-files/wt_int.hpp:111-112 | `(irb + ilb) >> 1` is ilb + 2^(h-1), the start of the upper half, and never 0 |
| `RangeSearch.Reported` | sdsl-files/wt_int.hpp:105-107 | with `report`, one pair per answer, the i-th being (1, i-th value); without it, no pairs |
| `RangeSearch.ReportedAppend` | sdsl-files/wt_int.hpp:125-138 | appending what two child searches report in turn equals reporting their concatenated answers |
| `RangeSearch.WtInt.Search` | sdsl-files/wt_int.hpp:96-140 | an empty row window reports nothing; otherwise a node reports at most one value per row |
| `RangeSearch.WtInt.Descend` | sdsl-files/wt_int.hpp:111-138 | an inner node reports at most one value per row |
| `RangeSearch.WtInt.Children` | sdsl-files/wt_int.hpp:114-138 | after the rank queries, an inner node split at `mid` reports at most one value per row |
| `RangeSearch.WtInt.LeftPart` | sdsl-files/wt_int.hpp:125-131 | the 0-child reports at most one value per row of its window |
| `RangeSearch.WtInt.RightPart` | sdsl-files/wt_int.hpp:132-138 | the 1-child reports at most one value per row of its window |
| `RangeSearch.Answers.constructor` | sdsl-files/wt_int.hpp:90-91 | the accumulator starts with `cnt_answers` 0 and an empty `point_vec` |
| `RangeSearch.WtInt.ClipValue` | sdsl-files/wt_int.hpp:86-87 | vrb is kept when it is at most 2^`m_max_level`, and replaced by 2^`m_max_level` otherwise |
| `RangeSearch.WtInt.Answer` | sdsl-files/wt_int.hpp:85-92 | no answers when vlb exceeds the clipped vrb or the row window is empty; at most one answer per row |
| `RangeSearch.WtInt.RangeSearch2d2Rec` | sdsl-files/wt_int.hpp:96-140 | adds the node's answers to `cnt_answers` and, when reporting, their pairs to `point_vec`; an empty row window changes neither; a leaf adds 1 and the pair (1, path) |
| `RangeSearch.WtInt.VisitLeft` | sdsl-files/wt_int.hpp:125-131 | the first branch adds exactly the 0-child's answers |
| `RangeSearch.WtInt.VisitRight` | sdsl-files/wt_int.hpp:132-138 | the second branch adds exactly the 1-child's answers |
| `RangeSearch.WtInt.RangeSearch2d2` | sdsl-files/wt_int.hpp:80-94 | the count is the number of answers whether or not `report` is set; the pairs are the reported answers, as many as the count when reporting and none otherwise; (0, []) when vlb exceeds the clipped vrb |
| `Layout.PartitionMembers` | sdsl-files/wt_int.hpp:125-137 | the 0-child holds exactly the node's values below `mid`, the 1-child exactly those from `mid` on |
| `Layout.OnesAreHigh` | sdsl-files/wt_int.hpp:116-124 | a node's set bits are as many as the values that go to its 1-child |
| `Layout.BuildPlaced` | sdsl-files/wt_int.hpp:128-135 | in the built bitvector, each child is stored one level (`m_size` bits) below its parent: the 0-child at the parent's offset, the 1-child after the 0-child's values |
| `RangeSearchProofs.HighRank` | sdsl-files/wt_int.hpp:116-124 | in a node, the set bits before row p count the values of its first p rows that go to the 1-child, and the unset bits those that go to the 0-child |
| `RangeSearchProofs.ChildSplit` | sdsl-files/wt_int.hpp:116-137 | the rank arithmetic finds where the node's rows before lb and up to rb went in each child, and how many values each child holds |
| `RangeSearchProofs.LeftWindow` | sdsl-files/wt_int.hpp:126-127 | the 0-child's window holds exactly the values of the rows [lb, rb] below `mid` |
| `RangeSearchProofs.RightWindow` | sdsl-files/wt_int.hpp:133-134 | the 1-child's window holds exactly the values of the rows [lb, rb] from `mid` on |
| `RangeSearchProofs.LeftChild` | sdsl-files/wt_int.hpp:128-130 | the 0-child is stored `m_size` bits further on, covers [ilb, mid) and has the prefix `path << 1` |
| `RangeSearchProofs.RightChild` | sdsl-files/wt_int.hpp:135-137 | the 1-child is stored after the 0-child on the next level, covers [mid, irb) and has the prefix `(path << 1) + 1` |
| `RangeSearchProofs.LeafCorrect` | sdsl-files/wt_int.hpp:104-109 | a leaf reached with a non-empty row window holds only the value `path` and reports it once |
| `RangeSearchProofs.SearchIncreasing` | sdsl-files/wt_int.hpp:125-138 | a node's answers are strictly increasing and lie in its value interval, because the 0-child is visited before the 1-child |
| `RangeSearchProofs.SearchCorrect` | sdsl-files/wt_int.hpp:96-140 | when the value window starts inside the node, the node reports exactly the values of its rows [lb, rb] within [vlb, vrb] |
| `RangeSearchProofs.DistinctCount` | sdsl-files/wt_int.hpp:108 | a strictly increasing answer list has as many entries as distinct values |
| `RangeSearchProofs.AnswerMembers` | sdsl-files/wt_int.hpp:80-140 | on the tree of `s`, a value is reported iff it occurs in `s[lb..rb]` and lies in [vlb, vrb] |
| `RangeSearchProofs.AnswerIncreasing` | sdsl-files/wt_int.hpp:80-140 | on the tree of `s`, the answers come in strictly increasing order |
| `RangeSearchProofs.RangeSearchCorrect` | sdsl-files/wt_int.hpp:80-140 | on the tree of `s`, the answers are the distinct values of `s[lb..rb]` in [vlb, vrb], each once and in increasing order, and their number is the number of those values |
| `RangeSearchProofs.ClipInvariant` | sdsl-files/wt_int.hpp:86-87 | every vrb from 2^`m_max_level` on gives the same answers as 2^`m_max_level` |
| `RangeSearchProofs.SearchTop` | sdsl-files/wt_int.hpp:125-138 | the window [irb, irb], one past a node's interval, skips every 0-child and reports irb - 1 iff the rows hold it |
| `RangeSearchProofs.TopValueQuirk` | sdsl-files/wt_int.hpp:86-89 | with vlb = 2^`m_max_level` and any vrb from 2^`m_max_level` on, the search reports 2^`m_max_level` - 1 if the rows hold it, and nothing otherwise |

## Left out

- The wavelet tree's constructors (sdsl-files/wt_int.hpp:62-63, 75-78) and the base class that builds `m_tree` are not part of this model. `Layout.Build` is a reference construction of the layout the search relies on. The end-to-end lemmas are stated for the tree it builds.
- `ones_before_os` (sdsl-files/wt_int.hpp:84, 117) is left out. The search writes it and never reads it.
- The rank support's internals are left out. `m_tree_rank(i)` is modelled as the number of set bits before position `i`.
- The select supports and the rest of the `wt_int` interface are left out. The search does not use them.
- The benchmark programs are left out. They only time the library.
- `size_type` and `value_type` are modelled as unbounded naturals, so 64-bit wrap-around and the shift `1ULL << m_max_level` for `m_max_level` >= 64 are not modelled. Every index the search computes is proved to stay within the bitvector and to be non-negative, so no subtraction wraps.
- `RangeSearch.WtInt.RangeSearch2d2Rec`: does not state the final contents of the `offsets` scratch array. Nothing reads it after the call returns.
- `RangeSearch.WtInt.RangeSearch2d2`: requires rb < `m_size` when the row window is not empty. The source does not check this; with a larger rb its rank query at line 119 reads past the node, so the model keeps to the input domain the search is written for.
- `RangeSearch.WtInt.RangeSearch2d2`: its result pairs are a `seq` of `Point`s rather than a `std::vector`, and allocation is not modelled.
- `RangeSearchProofs.AnswerMembers`: excludes the lower bound vlb = 2^`m_max_level`, where the search reports a value outside the window. `TopValueQuirk` states what happens then.
- `RangeSearchProofs.RangeSearchCorrect`: excludes vlb = 2^`m_max_level`, for the same reason.
