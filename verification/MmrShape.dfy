/**
 The shape of a post-order Merkle Mountain Range: which nodes exist after n appends, the
 position each one is written at, and how parents, siblings and peaks are laid out.
 A node is named by its height and by its index among the nodes of that height, so node
 (h, j) covers leaves Shl(j, h) .. Shl(j + 1, h).
 */
module MmrShape {
  import opened Binary

  datatype Node = Node(height: nat, index: nat)

  /** Nodes written after n appends; also the position of leaf n. */
  function NodeCount(n: nat): nat {
    2 * n - PopCount(n)
  }

  /** Position of a node. */
  function NodePos(h: nat, j: nat): nat {
    2 * Shl(j + 1, h) - 2 - PopCount(j)
  }

  /** All leaves under the node are among the first n. */
  predicate Complete(n: nat, h: nat, j: nat) {
    Shl(j + 1, h) <= n
  }

  /** The node is complete and is not the left or right child of a complete node. */
  predicate IsPeak(n: nat, h: nat, j: nat) {
    j % 2 == 0 && Complete(n, h, j) && !Complete(n, h, j + 1)
  }

  function SiblingIndex(j: nat): nat {
    if j % 2 == 1 then j - 1 else j + 1
  }

  function Positions(nodes: seq<Node>): (ps: seq<nat>)
    ensures |ps| == |nodes|
    ensures forall k :: 0 <= k < |nodes| ==> ps[k] == NodePos(nodes[k].height, nodes[k].index)
  {
    seq(|nodes|, k requires 0 <= k < |nodes| => NodePos(nodes[k].height, nodes[k].index))
  }

  /**
   The peaks of Shl(m, h) leaves, high to low: one perfect tree for each set bit of m, bit b
   giving a tree of height h + b.
   */
  function PeakNodes(m: nat, h: nat): seq<Node>
    decreases m
  {
    if m == 0 then []
    else PeakNodes(m / 2, h + 1) + (if m % 2 == 1 then [Node(h, m - 1)] else [])
  }

  /** Siblings of node (h, j) and of its ancestors, k of them, bottom up. */
  function Rise(h: nat, j: nat, k: nat): (nodes: seq<Node>)
    ensures |nodes| == k
  {
    if k == 0 then []
    else Rise(h, j, k - 1) + [Node(h + k - 1, SiblingIndex(Shr(j, k - 1)))]
  }

  lemma {:induction false} ShrHalf(j: nat, k: nat)
    ensures Shr(j / 2, k) == Shr(j, k + 1)
  {
    if k > 0 {
      ShrHalf(j, k - 1);
    }
  }

  /** Number of levels between a complete node and the peak above it. */
  function PeakHeight(n: nat, h: nat, j: nat): (k: nat)
    requires Complete(n, h, j)
    ensures IsPeak(n, h + k, Shr(j, k))
    decreases n - h
  {
    assert h < n by {
      HeightBelow(n, h, j);
    }
    ParentComplete(n, h, j);
    if Complete(n, h, SiblingIndex(j)) then
      var k := PeakHeight(n, h + 1, j / 2);
      ShrHalf(j, k);
      1 + k
    else
      0
  }

  lemma HeightBelow(n: nat, h: nat, j: nat)
    requires Complete(n, h, j)
    ensures h < Pow2(h) <= n
  {
    Pow2Beats(h);
    ShlNext(j, h);
  }

  // ---------------------------------------------------------------- positions

  lemma NodeCountNext(n: nat)
    ensures NodeCount(n) < NodeCount(n + 1)
  {
    PopCountNext(n);
  }

  /** Up to 2^63 leaves the node counter fits in 64 bits. */
  lemma CounterFits(n: nat)
    requires 0 < n <= MAX_LEAVES
    ensures NodeCount(n) < U64_LIMIT
  {
    PopCountPositive(n);
  }

  lemma {:induction false} NodeCountOrder(a: nat, b: nat)
    requires a <= b
    ensures NodeCount(a) <= NodeCount(b)
    decreases b
  {
    if a < b {
      NodeCountOrder(a, b - 1);
      NodeCountNext(b - 1);
    }
  }

  /** A node is written, h steps after its last leaf, by the append of that leaf. */
  lemma WrittenWithLastLeaf(h: nat, j: nat)
    ensures NodePos(h, j) == NodeCount(Shl(j + 1, h) - 1) + h
    ensures NodePos(h, j) < NodeCount(Shl(j + 1, h))
  {
    hide PopCount, Shl;
    PopCountBelowShl(j + 1, h);
    PopCountShl(j + 1, h);
    PopCountNext(j);
  }

  /** A node's position is in use exactly when all its leaves have been appended. */
  lemma PosInUse(n: nat, h: nat, j: nat)
    ensures NodePos(h, j) < NodeCount(n) <==> Complete(n, h, j)
  {
    hide NodePos, NodeCount, Shl;
    WrittenWithLastLeaf(h, j);
    if Complete(n, h, j) {
      NodeCountOrder(Shl(j + 1, h), n);
    } else {
      NodeCountOrder(n, Shl(j + 1, h) - 1);
    }
  }

  /** Two nodes never share a position. */
  lemma PosInjective(h: nat, j: nat, h': nat, j': nat)
    requires NodePos(h, j) == NodePos(h', j')
    ensures h == h' && j == j'
  {
    hide NodePos, PopCount, Shl;
    WrittenWithLastLeaf(h, j);
    WrittenWithLastLeaf(h', j');
    var e, e' := Shl(j + 1, h), Shl(j' + 1, h');
    if e < e' {
      NodeCountOrder(e, e' - 1);
    } else if e' < e {
      NodeCountOrder(e', e - 1);
    }
    ShlOrder(j + 1, j' + 1, h);
    ShlOrder(j' + 1, j + 1, h);
  }

  /** Every position in use belongs to a complete node. */
  lemma {:induction false} PosCovered(n: nat, p: nat) returns (h: nat, j: nat)
    requires p < NodeCount(n)
    ensures Complete(n, h, j) && NodePos(h, j) == p
    decreases n
  {
    if p < NodeCount(n - 1) {
      h, j := PosCovered(n - 1, p);
    } else {
      h := p - NodeCount(n - 1);
      j := TrailingOnes(n - 1, h);
      WrittenWithLastLeaf(h, j);
    }
  }

  /** Leaf i closes one node for each of its trailing one bits, and itself. */
  lemma {:induction false} TrailingOnes(i: nat, h: nat) returns (j: nat)
    requires h < NodeCount(i + 1) - NodeCount(i)
    ensures Shl(j + 1, h) == i + 1
    decreases i, h
  {
    hide PopCount, Shl;
    if h == 0 {
      j := i;
      ShlZero(j + 1);
    } else {
      PopCountDouble(i / 2);
      PopCountDouble(i / 2 + 1);
      assert i == 2 * (i / 2) + i % 2;
      j := TrailingOnes(i / 2, h - 1);
      ShlDouble(j + 1, h - 1);
    }
  }

  // ---------------------------------------------------------------- families

  /** A right child's sibling is 2^(h+1) - 1 before it and its parent is the next node. */
  lemma RightChildPositions(h: nat, m: nat)
    ensures NodePos(h, 2 * m) == NodePos(h, 2 * m + 1) - (2 * Pow2(h) - 1)
    ensures NodePos(h + 1, m) == NodePos(h, 2 * m + 1) + 1
  {
    hide PopCount, Shl;
    PopCountDouble(m);
    ShlNext(2 * m + 1, h);
    ShlDouble(m + 1, h);
  }

  /** Where the sibling and the parent of a node sit; the offset is 2^(h+1) - 1. */
  lemma FamilyPositions(h: nat, j: nat)
    ensures j % 2 == 1 ==> NodePos(h, SiblingIndex(j)) == NodePos(h, j) - (2 * Pow2(h) - 1)
    ensures j % 2 == 1 ==> NodePos(h + 1, j / 2) == NodePos(h, j) + 1
    ensures j % 2 == 0 ==> NodePos(h, SiblingIndex(j)) == NodePos(h, j) + (2 * Pow2(h) - 1)
    ensures j % 2 == 0 ==> NodePos(h + 1, j / 2) == NodePos(h, SiblingIndex(j)) + 1
  {
    hide NodePos, PopCount, Shl;
    RightChildPositions(h, j / 2);
    assert j == 2 * (j / 2) + j % 2;
  }

  /** A parent is complete exactly when the child and its sibling are. */
  lemma ParentComplete(n: nat, h: nat, j: nat)
    ensures Complete(n, h + 1, j / 2) <==> Complete(n, h, j) && Complete(n, h, SiblingIndex(j))
    ensures j % 2 == 1 && Complete(n, h, j) ==> Complete(n, h, j - 1)
  {
    ShlOrder(j, j + 1, h);
    ShlOrder(j + 1, j + 2, h);
    assert Shl(j / 2 + 1, h + 1) == Shl(2 * (j / 2) + 2, h);
  }

  /** First position of the subtree rooted at (h, j). */
  function SubtreeStart(h: nat, j: nat): nat {
    NodeCount(Shl(j, h))
  }

  lemma SubtreeStartIs(h: nat, j: nat)
    ensures SubtreeStart(h, j) == NodePos(h, j) - (2 * Pow2(h) - 2)
  {
    hide PopCount, Shl;
    ShlNext(j, h);
    PopCountShl(j, h);
  }

  /** The descendants of a node occupy the positions from its subtree's start to its own. */
  lemma {:induction false} DescendantRange(h: nat, j: nat, k: nat)
    ensures SubtreeStart(h + k, Shr(j, k)) <= NodePos(h, j) <= NodePos(h + k, Shr(j, k))
    decreases k
  {
    hide NodePos, SubtreeStart, PopCount, Shl;
    if k == 0 {
      SubtreeStartIs(h, j);
    } else {
      DescendantRange(h, j, k - 1);
      var c := Shr(j, k - 1);
      FamilyPositions(h + k - 1, c);
      SubtreeStartIs(h + k - 1, c);
      SubtreeStartIs(h + k, c / 2);
    }
  }

  /** Spans of different nodes of one height do not meet. */
  lemma SpansApart(h: nat, a: nat, b: nat)
    requires a < b
    ensures NodePos(h, a) < SubtreeStart(h, b)
  {
    hide NodePos, NodeCount, Shl;
    WrittenWithLastLeaf(h, a);
    ShlOrder(b, a + 1, h);
    NodeCountOrder(Shl(a + 1, h), Shl(b, h));
  }

  /** The span of an ancestor starts no later. */
  lemma {:induction false} AncestorStarts(h: nat, j: nat, k: nat)
    ensures SubtreeStart(h + k, Shr(j, k)) <= SubtreeStart(h, j)
    decreases k
  {
    hide NodePos, SubtreeStart, PopCount, Shl;
    if k > 0 {
      AncestorStarts(h, j, k - 1);
      var c := Shr(j, k - 1);
      FamilyPositions(h + k - 1, c);
      SubtreeStartIs(h + k - 1, c);
      SubtreeStartIs(h + k, c / 2);
      Pow2Next(h + k - 1);
    }
  }

  /** Conversely only descendants, and the node itself, sit in a node's span. */
  lemma SpanHoldsDescendants(top: nat, i: nat, h: nat, j: nat)
    requires SubtreeStart(top, i) <= NodePos(h, j) <= NodePos(top, i)
    ensures h <= top && Shr(j, top - h) == i
  {
    hide NodePos, SubtreeStart, Shr;
    if h <= top {
      var a := Shr(j, top - h);
      DescendantRange(h, j, top - h);
      if a < i {
        SpansApart(top, a, i);
      } else if i < a {
        SpansApart(top, i, a);
      }
    } else {
      var b := Shr(i, h - top);
      DescendantRange(top, i, h - top);
      AncestorStarts(top, i, h - top);
      OwnSpan(h, j);
      if b < j {
        SpansApart(h, b, j);
      } else if j < b {
        SpansApart(h, j, b);
      } else {
        PosInjectiveHeights(h, j, top, i);
      }
    }
  }

  lemma OwnSpan(h: nat, j: nat)
    ensures SubtreeStart(h, j) <= NodePos(h, j)
  {
    hide Shl, PopCount;
    SubtreeStartIs(h, j);
  }

  lemma PosInjectiveHeights(h: nat, j: nat, h': nat, j': nat)
    requires h != h'
    ensures NodePos(h, j) != NodePos(h', j')
  {
    hide NodePos;
    if NodePos(h, j) == NodePos(h', j') {
      PosInjective(h, j, h', j');
    }
  }

  /** All proper descendants of a complete node, and their siblings, are complete. */
  lemma {:induction false} DescendantComplete(n: nat, h: nat, j: nat, k: nat, i: nat)
    requires i < k
    requires Complete(n, h + k, Shr(j, k))
    ensures Complete(n, h + i, Shr(j, i)) && Complete(n, h + i, SiblingIndex(Shr(j, i)))
    decreases k
  {
    ParentComplete(n, h + k - 1, Shr(j, k - 1));
    if i < k - 1 {
      DescendantComplete(n, h, j, k - 1, i);
    }
  }

  /** A node has at most one ancestor (or itself) that is a peak. */
  lemma PeakAbove(n: nat, h: nat, j: nat, k: nat, k': nat)
    requires IsPeak(n, h + k, Shr(j, k)) && IsPeak(n, h + k', Shr(j, k'))
    ensures k == k'
  {
    if k < k' {
      DescendantComplete(n, h, j, k', k);
    } else if k' < k {
      DescendantComplete(n, h, j, k, k');
    }
  }

  // ---------------------------------------------------------------- peaks

  /** One peak for each set bit; heights strictly fall. */
  lemma {:induction false} PeaksByBits(m: nat, h: nat)
    ensures |PeakNodes(m, h)| == PopCount(m)
    ensures forall k :: 0 <= k < |PeakNodes(m, h)| ==> PeakNodes(m, h)[k].height >= h
    ensures forall k, l :: 0 <= k < l < |PeakNodes(m, h)| ==>
      PeakNodes(m, h)[k].height > PeakNodes(m, h)[l].height
    decreases m
  {
    if m > 0 {
      PeaksByBits(m / 2, h + 1);
    }
  }

  /** Clearing low zero bits does not change the peaks. */
  lemma {:induction false} PeaksSkipZeros(m: nat, d: nat, h: nat)
    ensures PeakNodes(Shl(m, d), h) == PeakNodes(m, h + d)
    decreases d
  {
    if d > 0 {
      ShlDouble(m, d - 1);
      PeaksEven(Shl(m, d - 1), h);
      PeaksSkipZeros(m, d - 1, h + 1);
    }
  }

  /** Every listed peak is a peak of the n = Shl(m, h) leaves. */
  lemma {:induction false} PeaksArePeaks(m: nat, h: nat)
    ensures forall p :: p in PeakNodes(m, h) ==>
      p.height >= h && IsPeak(Shl(m, h), p.height, p.index)
    decreases m
  {
    if m > 0 {
      PeaksArePeaks(m / 2, h + 1);
      assert Shl(m / 2, h + 1) == Shl(m - m % 2, h);
      forall p | p in PeakNodes(m / 2, h + 1)
        ensures IsPeak(Shl(m, h), p.height, p.index)
      {
        PeakStays(m, h, p);
      }
      ShlOrder(m, m + 1, h);
    }
  }

  /** `next` starts right after `prev` ends. */
  predicate Adjacent(prev: Node, next: Node) {
    SubtreeStart(next.height, next.index) == NodePos(prev.height, prev.index) + 1
  }

  /** The peaks tile the positions 0 .. NodeCount(n). */
  ghost predicate Tiled(ps: seq<Node>, n: nat) {
    && |ps| > 0
    && SubtreeStart(ps[0].height, ps[0].index) == 0
    && NodePos(ps[|ps| - 1].height, ps[|ps| - 1].index) + 1 == NodeCount(n)
    && forall k :: 0 < k < |ps| ==> Adjacent(ps[k - 1], ps[k])
  }

  lemma TreeEnd(h: nat, j: nat)
    requires j % 2 == 0
    ensures NodePos(h, j) + 1 == NodeCount(Shl(j + 1, h))
  {
    hide Shl, PopCount;
    PopCountShl(j + 1, h);
    PopCountDouble(j / 2);
  }

  lemma TiledSnoc(ps: seq<Node>, n: nat, p: Node, n': nat)
    requires Tiled(ps, n)
    requires SubtreeStart(p.height, p.index) == NodeCount(n)
    requires NodePos(p.height, p.index) + 1 == NodeCount(n')
    ensures Tiled(ps + [p], n')
  {
    hide NodePos, NodeCount, SubtreeStart;
    var qs := ps + [p];
    forall k | 0 < k < |qs|
      ensures Adjacent(qs[k - 1], qs[k])
    {
      if k < |ps| {
        assert Adjacent(ps[k - 1], ps[k]);
      }
    }
  }

  lemma {:induction false} PeaksTile(m: nat, h: nat)
    requires m > 0
    ensures Tiled(PeakNodes(m, h), Shl(m, h))
    decreases m
  {
    hide NodePos, NodeCount, Shl, PeakNodes, SubtreeStart;
    var k := m / 2;
    PeaksOdd(k, h);
    PeaksEven(k, h);
    ShlDouble(k, h);
    if m == 1 {
      TreeEnd(h, 0);
      FirstTreeStart(h);
      NoPeaks(h + 1);
    } else {
      PeaksTile(k, h + 1);
      if m == 2 * k + 1 {
        TreeEnd(h, 2 * k);
        SubtreeStartsAt(h, 2 * k);
        TiledSnoc(PeakNodes(k, h + 1), Shl(2 * k, h), Node(h, 2 * k), Shl(m, h));
      }
    }
  }

  lemma NoPeaks(h: nat)
    ensures PeakNodes(0, h) == []
  {
  }

  lemma SubtreeStartsAt(h: nat, j: nat)
    ensures SubtreeStart(h, j) == NodeCount(Shl(j, h))
  {
  }

  lemma FirstTreeStart(h: nat)
    ensures SubtreeStart(h, 0) == 0
  {
    ShlOne(h);
  }

  /** A peak of the even part stays a peak when one more tree of height h is appended. */
  lemma PeakStays(m: nat, h: nat, p: Node)
    requires p.height > h
    requires IsPeak(Shl(m - m % 2, h), p.height, p.index)
    ensures IsPeak(Shl(m, h), p.height, p.index)
  {
    hide Shl;
    var d := p.height - h;
    ShlShl(p.index + 1, d, h);
    ShlShl(p.index + 2, d, h);
    ShlOrder(m - m % 2, Shl(p.index + 2, d), h);
    ShlOrder(m, Shl(p.index + 2, d), h);
    ShlOrder(m - m % 2, m, h);
    ShlDouble(p.index + 2, d - 1);
  }

  /** Conversely every peak of m units of height h is listed. */
  lemma {:induction false} PeakListed(m: nat, h: nat, d: nat, j: nat) returns (k: nat)
    requires IsPeak(m, d, j)
    ensures k < |PeakNodes(m, h)| && PeakNodes(m, h)[k] == Node(h + d, j)
    decreases d
  {
    PeaksOdd(m / 2, h);
    PeaksEven(m / 2, h);
    assert m == 2 * (m / 2) + m % 2;
    hide PeakNodes;
    if d == 0 {
      k := |PeakNodes(m, h)| - 1;
    } else {
      hide Shl;
      ShlDouble(j + 1, d - 1);
      ShlDouble(j + 2, d - 1);
      k := PeakListed(m / 2, h + 1, d - 1, j);
    }
  }

  /** The tree of height k under the high bits of n is the next peak after those of the rest. */
  lemma PeaksAppend(q: nat, d: nat, k: nat)
    requires d > 0
    ensures PeakNodes(Shl(q, d) + 1, k) == PeakNodes(q, k + d) + [Node(k, Shl(q, d))]
  {
    hide Shl, PeakNodes;
    ShlDouble(q, d - 1);
    PeaksSkipZeros(q, d - 1, k + 1);
    PeaksOdd(Shl(q, d - 1), k);
  }

  lemma PeaksEven(m: nat, h: nat)
    ensures PeakNodes(2 * m, h) == PeakNodes(m, h + 1)
  {
    assert 2 * m / 2 == m && 2 * m % 2 == 0;
  }

  lemma PeaksOdd(m: nat, h: nat)
    ensures PeakNodes(2 * m + 1, h) == PeakNodes(m, h + 1) + [Node(h, 2 * m)]
  {
    assert (2 * m + 1) / 2 == m && (2 * m + 1) % 2 == 1;
  }

  /** What one carry does: the last peak is consumed and the next height is looked at. */
  lemma PeaksCarry(pos: nat, h: nat)
    ensures pos % 2 == 1 ==> PeakNodes(pos, h) == PeakNodes(pos / 2, h + 1) + [Node(h, pos - 1)]
    ensures pos % 2 == 1 ==> PeakNodes(pos + 1, h) == PeakNodes(pos / 2 + 1, h + 1)
    ensures pos % 2 == 0 ==> PeakNodes(pos + 1, h) == PeakNodes(pos, h) + [Node(h, pos)]
  {
    hide PeakNodes;
    var m := pos / 2;
    assert pos == 2 * m + pos % 2;
    PeaksOdd(m, h);
    PeaksEven(m, h);
    PeaksEven(m + 1, h);
    assert 2 * (m + 1) == 2 * m + 2;
  }
}
