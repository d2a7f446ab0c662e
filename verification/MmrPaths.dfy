/**
 The two sibling-path algorithms and their helpers: bottom-up `ClimbToPeak`, which works from
 the bits of the leaf index, and top-down `GetMmrPath`, which descends from a peak.
 Words are 64 bits; checked operations fail as `None`, unchecked ones wrap.
 */
module MmrPaths {
  import opened Binary
  import opened Bytes
  import opened MmrShape

  function CheckedAdd(a: nat, b: nat): Option<nat> {
    if a + b < U64_LIMIT then Some(a + b) else None
  }

  function CheckedSub(a: nat, b: nat): Option<nat> {
    if b <= a then Some(a - b) else None
  }

  /** `1u64.checked_shl(h)`. */
  function CheckedShlOne(h: nat): Option<nat> {
    if h < 64 then Some(Pow2(h)) else None
  }

  /** The siblings of a node up to its peak, bottom up, as positions. */
  function SiblingPath(n: nat, h: nat, j: nat): seq<nat>
    requires Complete(n, h, j)
  {
    Positions(Rise(h, j, PeakHeight(n, h, j)))
  }

  // ---------------------------------------------------------------- bottom up

  lemma HeightFits(n: nat, h: nat, j: nat)
    requires Complete(n, h, j) && n <= MAX_LEAVES
    ensures h <= 63 && (n < MAX_LEAVES ==> h <= 62)
    ensures h == 63 ==> j == 0
  {
    HeightBelow(n, h, j);
    WordSizes();
    if h >= 63 {
      Pow2Order(63, h);
      if h >= 64 {
        Pow2Order(64, h);
      }
      ShlNext(j, h);
      ShlOrder(0, j, h);
    }
  }

  /** Below height 63 a left child's right neighbour is always addressable in 64 bits. */
  lemma NeighbourFits(n: nat, h: nat, j: nat)
    requires Complete(n, h, j) && n <= MAX_LEAVES && h <= 62 && j % 2 == 0
    ensures Shl(j + 2, h) <= MAX_LEAVES
    ensures NodePos(h, j + 1) < U64_LIMIT
  {
    hide Shl, PopCount, Pow2;
    var top := Pow2(62 - h);
    MaxLeavesAt(h);
    ShlOrder(2 * top, j + 1, h);
    ShlOrder(2 * top, j + 2, h);
  }

  lemma MaxLeavesAt(h: nat)
    requires h <= 62
    ensures MAX_LEAVES == Shl(2 * Pow2(62 - h), h)
  {
    assert Pow2(63) == 2 * Pow2(62);
    hide Shl, Pow2;
    WordSizes();
    ShlOne(62 - h);
    ShlShl(1, 62 - h, h);
    ShlOne(62);
    ShlDouble(Pow2(62 - h), h);
  }

  /** What one round of the climb finds: the peak, or a sibling and the parent's position. */
  datatype Step = AtPeak | Up(sibling: nat, parent: nat)

  /** One round at `height`; `None` when a checked operation fails. */
  function ClimbStep(nodeCount: nat, currPos: nat, height: nat, rightChild: bool): Option<Step> {
    var pow :- CheckedShlOne(height);
    var below :- CheckedSub(pow, 1);
    var offset :- CheckedAdd(below, pow);
    if rightChild then
      var siblingPos :- CheckedSub(currPos, offset);
      var parentPos :- CheckedAdd(currPos, 1);
      Some(Up(siblingPos, parentPos))
    else
      var siblingPos :- CheckedAdd(currPos, offset);
      if siblingPos < nodeCount then
        var parentPos :- CheckedAdd(siblingPos, 1);
        Some(Up(siblingPos, parentPos))
      else
        Some(AtPeak)
  }

  /** A round fails only at the root of 2^63 leaves; otherwise it is right about the node. */
  lemma ClimbStepRight(n: nat, h: nat, j: nat)
    requires 0 < n <= MAX_LEAVES && Complete(n, h, j)
    ensures var step := ClimbStep(NodeCount(n), NodePos(h, j), h, j % 2 == 1);
      if n == MAX_LEAVES && h == 63 then step == None
      else if IsPeak(n, h, j) then n < MAX_LEAVES && step == Some(AtPeak)
      else Complete(n, h + 1, j / 2) && step == Some(Up(NodePos(h, SiblingIndex(j)), NodePos(h + 1, j / 2)))
  {
    hide PopCount, Shl, Pow2, NodePos, NodeCount;
    HeightFits(n, h, j);
    PowFits(h);
    CounterFits(n);
    FamilyPositions(h, j);
    ParentComplete(n, h, j);
    PosInUse(n, h + 1, j / 2);
    PosInUse(n, h, SiblingIndex(j));
    if h == 63 {
      TopOverflows();
    } else if j % 2 == 0 {
      NeighbourFits(n, h, j);
    }
  }

  /**
   The sibling positions of a leaf, in a range of `leavesLen` leaves. It succeeds for every
   index in range as long as there are fewer than 2^63 leaves, and always leaves the loop
   at the peak; with exactly 2^63 leaves the last offset overflows and it fails.
   */
  method ClimbToPeak(leavesLen: nat, nodeCount: nat, leafIndex: nat) returns (r: Option<(nat, seq<nat>)>)
    requires leavesLen <= MAX_LEAVES && nodeCount == NodeCount(leavesLen)
    ensures leafIndex >= leavesLen ==> r.None?
    ensures leafIndex < leavesLen < MAX_LEAVES ==>
      Complete(leavesLen, 0, leafIndex)
      && r == Some((NodePos(0, leafIndex), SiblingPath(leavesLen, 0, leafIndex)))
    ensures leavesLen == MAX_LEAVES ==> r.None?
  {
    hide PopCount, Shl, Pow2, Rise, Positions, NodePos, NodeCount, PeakHeight, ClimbStep;
    if leafIndex >= leavesLen {
      return None;
    }
    var pos := 2 * leafIndex - PopCount(leafIndex);
    LeafStart(leavesLen, leafIndex);
    if pos >= nodeCount {
      return None;
    }
    var siblings: seq<nat> := [];
    var currPos, height := pos, 0;
    var leavesBefore, remaining := leafIndex, leavesLen;
    RiseNone(0, leafIndex);
    while remaining > 0
      invariant Complete(leavesLen, height, leavesBefore) && leavesBefore == Shr(leafIndex, height)
      invariant currPos == NodePos(height, leavesBefore)
      invariant siblings == Positions(Rise(0, leafIndex, height))
      invariant leavesLen < Shl(remaining + 1, height) && leavesBefore < remaining
    {
      ClimbStepRight(leavesLen, height, leavesBefore);
      HeightFits(leavesLen, height, leavesBefore);
      RiseMore(0, leafIndex, height);
      match ClimbStep(nodeCount, currPos, height, leavesBefore % 2 == 1)
      case None =>
        return None;
      case Some(AtPeak) =>
        break;
      case Some(Up(siblingPos, parentPos)) =>
        RemainingHalves(leavesLen, height, remaining, leavesBefore);
        siblings := siblings + [siblingPos];
        currPos := parentPos;
        height := height + 1;
        leavesBefore := leavesBefore / 2;
        remaining := remaining / 2;
    }
    PeakAbove(leavesLen, 0, leafIndex, height, PeakHeight(leavesLen, 0, leafIndex));
    return Some((pos, siblings));
  }

  lemma LeafStart(n: nat, i: nat)
    requires i < n
    ensures Complete(n, 0, i) && NodePos(0, i) == 2 * i - PopCount(i) < NodeCount(n)
    ensures Shr(i, 0) == i && n < Shl(n + 1, 0)
  {
    PosInUse(n, 0, i);
  }

  lemma RiseNone(h: nat, j: nat)
    ensures Positions(Rise(h, j, 0)) == []
  {
  }

  lemma RiseMore(h: nat, j: nat, k: nat)
    ensures Positions(Rise(h, j, k + 1))
      == Positions(Rise(h, j, k)) + [NodePos(h + k, SiblingIndex(Shr(j, k)))]
  {
  }

  lemma PowFits(h: nat)
    requires h <= 63
    ensures 1 <= Pow2(h) && 2 * Pow2(h) - 1 < U64_LIMIT
  {
    WordSizes();
    Pow2Order(h, 63);
  }

  /** The offset at height 63 does not fit once added to the root of 2^63 leaves. */
  lemma TopOverflows()
    ensures NodePos(63, 0) + (2 * Pow2(63) - 1) >= U64_LIMIT
  {
    WordSizes();
    ShlOne(63);
    hide Pow2, Shl;
  }

  lemma RemainingHalves(n: nat, h: nat, remaining: nat, j: nat)
    requires n < Shl(remaining + 1, h) && Complete(n, h + 1, j / 2)
    ensures n < Shl(remaining / 2 + 1, h + 1) && j / 2 < remaining / 2
  {
    var half := remaining / 2;
    ShlDouble(half + 1, h);
    hide Shl;
    ShlOrder(2 * (half + 1), remaining + 1, h);
    ShlOrder(j / 2 + 1, half + 1, h + 1);
  }

  // ---------------------------------------------------------------- helpers

  /** A shift by a word's width or more shifts by the remainder. */
  function ShlOne64(k: nat): (r: nat)
    ensures r >= 1
  {
    Pow2(k % 64)
  }

  lemma ShlOneFits(k: nat)
    ensures k < 64 ==> ShlOne64(k) == Pow2(k)
    ensures k == 64 ==> ShlOne64(k) == 1
  {
    Pow2Zero();
    hide Pow2;
  }

  /** Word arithmetic that wraps. */
  function Wrap64(x: int): nat {
    x % U64_LIMIT
  }

  lemma WrapFits(x: nat)
    ensures x < U64_LIMIT ==> Wrap64(x) == x
    ensures Wrap64(-1) == U64_LIMIT - 1
  {
  }

  /** The position of a leaf, up to the word size: right exactly up to leaf 2^63. */
  method GetMmrNodePos(leafIndex: nat) returns (pos: nat)
    requires leafIndex < U64_LIMIT
    ensures pos < U64_LIMIT && pos == Wrap64(NodePos(0, leafIndex))
    ensures pos == NodePos(0, leafIndex) <==> leafIndex <= MAX_LEAVES
  {
    pos := Wrap64(Wrap64(leafIndex * 2) - PopCount(leafIndex));
    LeafPosition(leafIndex);
    hide PopCount, NodePos;
  }

  lemma LeafPosition(i: nat)
    ensures NodePos(0, i) == 2 * i - PopCount(i)
    ensures NodePos(0, i) < U64_LIMIT <==> i <= MAX_LEAVES
  {
    ShlZero(i + 1);
    hide Shl, PopCount;
    WordSizes();
    ShlOne(63);
    PopCountShl(1, 63);
    OneBit();
    PopCountNext(MAX_LEAVES);
    if i <= MAX_LEAVES {
      if i > 0 {
        PopCountPositive(i);
      }
    } else {
      NodeCountOrder(MAX_LEAVES + 1, i);
    }
  }

  lemma OneBit()
    ensures PopCount(1) == 1
  {
  }

  /** 2^(h+1) - h - 2, the first position for which `GetMmrNodeHeight` answers h. */
  function HeightThreshold(h: nat): nat {
    Pow2Beats(h + 1);
    Pow2(h + 1) - h - 2
  }

  /**
   The node's height exactly at roots of trees that start at position 0, up to height 62. The
   last 65 positions are beyond the last shift that fits and get an answer of 64 or more.
   */
  method GetMmrNodeHeight(pos: nat) returns (h: nat)
    requires pos < U64_LIMIT
    ensures pos < U64_LIMIT - 65 ==> h <= 62 && HeightThreshold(h) <= pos < HeightThreshold(h + 1)
    ensures pos >= U64_LIMIT - 65 ==> 64 <= h <= 69
    ensures forall g, j :: NodePos(g, j) == pos ==> (h == g <==> j == 0 && g <= 62)
  {
    hide NodePos, HeightThreshold, Pow2, ShlOne64;
    h := 0;
    var p := pos;
    LastThreshold();
    while true
      invariant 0 <= p && h <= 69
      invariant h <= 63 ==> p + HeightThreshold(h) == pos
      invariant h > 63 ==> p + HeightThreshold(h - 64) + (U64_LIMIT - 65) == pos
      decreases 70 - h
    {
      var fullTreeSize := ShlOne64(h + 1) - 1;
      HeightRound(h);
      ThresholdLimit(h);
      ThresholdsOrder(h + 1, 63);
      WrappedLimit(h);
      if p < fullTreeSize {
        break;
      }
      p := p - fullTreeSize;
      h := h + 1;
    }
    forall g, j | NodePos(g, j) == pos
      ensures h == g <==> j == 0 && g <= 62
    {
      HeightAnswer(pos, h, g, j);
    }
  }

  lemma LastThreshold()
    ensures HeightThreshold(0) == 0 && HeightThreshold(63) == U64_LIMIT - 65
  {
    WordSizes();
    hide Pow2;
    Pow2Next(0);
    Pow2Zero();
  }

  lemma Pow2Zero()
    ensures Pow2(0) == 1
  {
  }

  /** What one round takes off: the size of the next tree, nothing at 63, and then all over again. */
  lemma HeightRound(h: nat)
    requires h <= 69
    ensures h <= 62 ==> HeightThreshold(h + 1) == HeightThreshold(h) + (ShlOne64(h + 1) - 1)
    ensures h == 63 ==> ShlOne64(h + 1) == 1 && HeightThreshold(h) == U64_LIMIT - 65 && HeightThreshold(0) == 0
    ensures h > 63 ==> HeightThreshold(h - 63) == HeightThreshold(h - 64) + (ShlOne64(h + 1) - 1)
  {
    LastThreshold();
    Pow2Zero();
    if h <= 62 {
      Pow2Next(h + 1);
      assert (h + 1) % 64 == h + 1;
    } else if h > 63 {
      Pow2Next(h - 63);
      assert (h + 1) % 64 == h - 63;
    }
    hide Pow2;
  }

  /** The second time round, 65 positions are used up by height 69. */
  lemma WrappedLimit(h: nat)
    ensures h >= 69 ==> HeightThreshold(h - 63) >= 65
  {
    assert HeightThreshold(6) == 120;
    if h >= 69 {
      hide HeightThreshold;
      ThresholdsOrder(6, h - 63);
    }
  }

  lemma HeightAnswer(pos: nat, answer: nat, h: nat, j: nat)
    requires NodePos(h, j) == pos < U64_LIMIT
    requires pos < U64_LIMIT - 65 ==>
      answer <= 62 && HeightThreshold(answer) <= pos < HeightThreshold(answer + 1)
    requires pos >= U64_LIMIT - 65 ==> 64 <= answer
    ensures answer == h <==> j == 0 && h <= 62
  {
    hide NodePos, HeightThreshold;
    if pos < U64_LIMIT - 65 {
      NodeHeightExact(answer, h, j);
    } else {
      HighNode(h, j);
    }
  }

  /** No node of height 64 or more is addressable, and none of the low first roots is among the last. */
  lemma HighNode(h: nat, j: nat)
    ensures NodePos(h, j) < U64_LIMIT ==> h <= 63
    ensures j == 0 && h <= 62 ==> NodePos(h, j) < U64_LIMIT - 65
  {
    WordSizes();
    FirstRoot(h);
    Pow2Next(63);
    hide Pow2, NodePos;
    if j > 1 {
      LaterRoots(h, j);
    }
    FirstBeforeSecond(h);
    if h >= 64 {
      Pow2Order(65, h + 1);
      Pow2Next(64);
    } else if h <= 62 {
      Pow2Order(h + 1, 63);
    }
  }

  lemma FirstBeforeSecond(h: nat)
    ensures NodePos(h, 0) < NodePos(h, 1)
  {
    FirstRoot(h);
    SecondRoot(h);
  }

  /**
   The answer is the node's height exactly at roots of trees that start at position 0, which
   are the positions 2^k - 2.
   */
  lemma NodeHeightExact(answer: nat, h: nat, j: nat)
    requires HeightThreshold(answer) <= NodePos(h, j) < HeightThreshold(answer + 1)
    ensures answer == h <==> j == 0
    ensures j == 0 <==> exists k: nat :: NodePos(h, j) + 2 == Pow2(k)
  {
    FirstRoot(h);
    hide Shl, PopCount;
    if j == 0 {
      ThresholdsOrder(answer + 1, h);
      ThresholdsOrder(h + 1, answer);
      assert NodePos(h, j) + 2 == Pow2(h + 1);
    } else {
      ShlNext(1, h);
      SecondRoot(h);
      LaterRoots(h, j);
      ThresholdsOrder(h + 1, answer);
      if k: nat :| NodePos(h, j) + 2 == Pow2(k) {
        if k > 0 {
          FirstRoot(k - 1);
          PosInjective(h, j, k - 1, 0);
        }
      }
    }
  }

  lemma FirstRoot(h: nat)
    ensures NodePos(h, 0) == Pow2(h + 1) - 2
    ensures HeightThreshold(h) <= NodePos(h, 0) < HeightThreshold(h + 1)
  {
    ShlOne(h);
    Pow2Beats(h + 1);
  }

  lemma SecondRoot(h: nat)
    ensures NodePos(h, 1) >= HeightThreshold(h + 1)
  {
    ShlNext(1, h);
    ShlOne(h);
    assert PopCount(1) == 1;
    assert Pow2(h + 2) == 4 * Pow2(h);
  }

  lemma {:induction false} LaterRoots(h: nat, j: nat)
    requires j >= 1
    ensures NodePos(h, j) >= NodePos(h, 1)
  {
    if j > 1 {
      LaterRoots(h, j - 1);
      ShlNext(j, h);
      hide Shl, PopCount;
      PopCountNext(j - 1);
    }
  }

  lemma {:induction false} ThresholdsOrder(a: nat, b: nat)
    ensures a <= b ==> HeightThreshold(a) <= HeightThreshold(b)
    decreases b
  {
    if a < b {
      ThresholdsOrder(a, b - 1);
    }
  }

  lemma ThresholdLimit(h: nat)
    ensures HeightThreshold(h) < U64_LIMIT - 65 ==> h <= 62
  {
    WordSizes();
    hide Pow2;
    if h > 62 {
      ThresholdsOrder(63, h);
    }
  }

  // ---------------------------------------------------------------- peak positions

  /**
   Positions of the peaks of `leafCount` leaves, high to low. From 2^63 leaves on the size of the
   first tree wraps to 0: its peak is misplaced and the others are those of the rest alone.
   */
  method GetMmrPeaks(leafCount: nat) returns (peaks: seq<nat>)
    requires leafCount < U64_LIMIT
    ensures leafCount < MAX_LEAVES ==> peaks == Positions(PeakNodes(leafCount, 0))
    ensures leafCount >= MAX_LEAVES ==>
      peaks == [U64_LIMIT - 1] + Positions(PeakNodes(leafCount - MAX_LEAVES, 0))
    ensures leafCount < MAX_LEAVES ==> forall p :: p in peaks ==> p < NodeCount(leafCount)
    ensures peaks == Positions(PeakNodes(leafCount, 0)) <==> leafCount < MAX_LEAVES
  {
    hide PeaksWord, PeakNodes, Positions, Log2, ShlOne64, Wrap64;
    peaks := [];
    var offset: nat, rest: nat := 0, leafCount;
    ghost var high: nat, g: nat, good: seq<nat> := 0, 63, [];
    PeaksWordStart(leafCount);
    while rest > 0
      invariant PeaksWord(leafCount, high, g, rest, offset, good, peaks)
    {
      high, g, good := PeaksWordStep(leafCount, high, g, rest, offset, good, peaks);
      var h := Log2(rest);
      var fullTreeLeaves := ShlOne64(h);
      var fullTreeSize := Wrap64(ShlOne64(h + 1) - 1);
      peaks := peaks + [Wrap64(offset + fullTreeSize - 1)];
      offset := Wrap64(offset + fullTreeSize);
      rest := rest - fullTreeLeaves;
    }
    PeaksWordEnd(leafCount, high, g, offset, good, peaks);
  }

  /** The leaves below 2^63, and the peak listed for the others. */
  function LowLeaves(n: nat): nat {
    if n < MAX_LEAVES then n else n - MAX_LEAVES
  }

  function MisplacedPeak(n: nat): seq<nat> {
    if n < MAX_LEAVES then [] else [U64_LIMIT - 1]
  }

  /** State of the loop on words: not yet begun with 2^63 leaves or more, or at work on the low leaves. */
  ghost predicate PeaksWord(n: nat, high: nat, g: nat, rest: nat, offset: nat, good: seq<nat>, peaks: seq<nat>) {
    && n < U64_LIMIT && (forall p :: p in good ==> p < offset)
    && if rest >= MAX_LEAVES
       then rest == n && offset == 0 && peaks == good == [] && PeaksLoop(LowLeaves(n), high, g, n - MAX_LEAVES, 0, [])
       else peaks == MisplacedPeak(n) + good && PeaksLoop(LowLeaves(n), high, g, rest, offset, good)
  }

  lemma PeaksWordStart(n: nat)
    requires n < U64_LIMIT
    ensures PeaksWord(n, 0, 63, n, 0, [], [])
  {
    PeaksLoopStart(LowLeaves(n));
    hide PeaksLoop;
  }

  lemma PeaksWordStep(n: nat, high: nat, g: nat, rest: nat, offset: nat, good: seq<nat>, peaks: seq<nat>)
    returns (high': nat, g': nat, good': seq<nat>)
    requires PeaksWord(n, high, g, rest, offset, good, peaks) && 0 < rest
    ensures var h, size := Log2(rest), Wrap64(ShlOne64(Log2(rest) + 1) - 1);
      && ShlOne64(h) <= rest
      && PeaksWord(n, high', g', rest - ShlOne64(h), Wrap64(offset + size), good', peaks + [Wrap64(offset + size - 1)])
  {
    hide PeaksLoop, Log2, ShlOne64, Wrap64, Shl, Pow2, NodeCount;
    var h, size := Log2(rest), Wrap64(ShlOne64(Log2(rest) + 1) - 1);
    RestBelow(n, high, g, rest, offset, good, peaks);
    TreeSizeFits(rest);
    if rest < MAX_LEAVES {
      PeaksLoopStep(LowLeaves(n), high, g, rest, offset, good);
      high', g', good' := Shl(high, g - h) + 1, h, good + [offset + size - 1];
      OffsetFits(LowLeaves(n), high', g', rest - Pow2(h), offset + size, good');
      WrapFits(offset + size - 1);
      WrapFits(offset + size);
      assert peaks + [offset + size - 1] == MisplacedPeak(n) + good';
    } else {
      high', g', good' := high, g, good;
      WrapFits(0);
    }
  }

  lemma RestBelow(n: nat, high: nat, g: nat, rest: nat, offset: nat, good: seq<nat>, peaks: seq<nat>)
    requires PeaksWord(n, high, g, rest, offset, good, peaks)
    ensures rest < U64_LIMIT
  {
  }

  lemma PeaksWordEnd(n: nat, high: nat, g: nat, offset: nat, good: seq<nat>, peaks: seq<nat>)
    requires PeaksWord(n, high, g, 0, offset, good, peaks)
    ensures peaks == MisplacedPeak(n) + Positions(PeakNodes(LowLeaves(n), 0))
    ensures n < MAX_LEAVES ==> forall p :: p in peaks ==> p < NodeCount(n)
    ensures peaks == Positions(PeakNodes(n, 0)) <==> n < MAX_LEAVES
  {
    PeaksLoopEnd(LowLeaves(n), high, g, offset, good);
    hide PeakNodes, Positions, NodeCount, PeaksLoop;
    if n >= MAX_LEAVES {
      FirstPeakEven(n);
      assert peaks[0] == U64_LIMIT - 1;
    }
  }

  lemma PeaksLoopEnd(n: nat, high: nat, g: nat, offset: nat, peaks: seq<nat>)
    requires PeaksLoop(n, high, g, 0, offset, peaks)
    ensures offset == NodeCount(n) && peaks == Positions(PeakNodes(n, 0))
  {
    hide PeakNodes, Positions, NodeCount, Shl, Pow2;
    PeaksSkipZeros(high, g, 0);
  }

  lemma TreeSizeFits(rest: nat)
    requires 0 < rest < U64_LIMIT
    ensures var h := Log2(rest);
      if rest < MAX_LEAVES then
        ShlOne64(h) == Pow2(h) <= rest && Wrap64(ShlOne64(h + 1) - 1) == Pow2(h + 1) - 1
      else ShlOne64(h) == MAX_LEAVES && Wrap64(ShlOne64(h + 1) - 1) == 0
  {
    hide Pow2, Log2, ShlOne64, Wrap64;
    var h := Log2(rest);
    WordSizes();
    assert Pow2(h) <= rest < Pow2(h + 1);
    WordHeight(h, rest);
    ShlOneFits(h);
    ShlOneFits(h + 1);
    WrapFits(ShlOne64(h + 1) - 1);
  }

  lemma WordHeight(h: nat, rest: nat)
    requires Pow2(h) <= rest < Pow2(h + 1) && rest < U64_LIMIT
    ensures if rest < MAX_LEAVES then h <= 62 && Pow2(h + 1) <= MAX_LEAVES else h == 63
  {
    WordSizes();
    hide Pow2;
    if h >= 64 {
      Pow2Order(64, h);
    } else if h <= 62 {
      Pow2Order(h + 1, 63);
    }
  }

  lemma OffsetFits(n: nat, high: nat, g: nat, rest: nat, offset: nat, peaks: seq<nat>)
    requires PeaksLoop(n, high, g, rest, offset, peaks) && n <= MAX_LEAVES
    ensures offset < U64_LIMIT
  {
    hide Shl, NodeCount, Pow2, PeakNodes;
    NodeCountOrder(Shl(high, g), n);
    if n == 0 {
      NothingCounted();
    } else {
      CounterFits(n);
    }
  }

  /** The first peak is the root of a tree that starts at 0, at an even position. */
  lemma FirstPeakEven(n: nat)
    requires n > 0
    ensures |PeakNodes(n, 0)| > 0 && Positions(PeakNodes(n, 0))[0] % 2 == 0
  {
    hide Shl, PeakNodes, SubtreeStart, NodePos, NodeCount, Pow2;
    ShlZero(n);
    PeaksTile(n, 0);
    var p := PeakNodes(n, 0)[0];
    SubtreeStartIs(p.height, p.index);
  }

  /** The leaves split into `high` whole trees of height g, already listed, and the rest. */
  ghost predicate PeaksLoop(n: nat, high: nat, g: nat, rest: nat, offset: nat, peaks: seq<nat>) {
    && n == Shl(high, g) + rest
    && rest < Pow2(g)
    && offset == NodeCount(Shl(high, g))
    && peaks == Positions(PeakNodes(high, g))
  }

  lemma PeaksLoopStart(n: nat)
    requires n < MAX_LEAVES
    ensures PeaksLoop(n, 0, 63, n, 0, [])
  {
    WordSizes();
    ShlOne(63);
  }

  lemma PeaksLoopStep(n: nat, high: nat, g: nat, rest: nat, offset: nat, peaks: seq<nat>)
    requires PeaksLoop(n, high, g, rest, offset, peaks) && rest > 0
    ensures var h, size := Log2(rest), Pow2(Log2(rest) + 1) - 1;
      h < g && PeaksLoop(n, Shl(high, g - h) + 1, h, rest - Pow2(h), offset + size, peaks + [offset + size - 1])
  {
    hide Pow2, Shl, PopCount, PeakNodes, Log2, NodePos, NodeCount, SubtreeStart;
    var h := Log2(rest);
    Pow2Next(h);
    if g <= h {
      Pow2Order(g, h);
    }
    var j := Shl(high, g - h);
    ShlShl(high, g - h, h);
    ShlNext(j, h);
    ShlDouble(high, g - h - 1);
    TreeEnd(h, j);
    SubtreeStartIs(h, j);
    SubtreeStartsAt(h, j);
    PeaksAppend(high, g - h, h);
    assert Positions(PeakNodes(j + 1, h)) == Positions(PeakNodes(high, g)) + [NodePos(h, j)];
  }

  // ---------------------------------------------------------------- top down

  function Reversed(s: seq<nat>): seq<nat> {
    if s == [] then [] else Reversed(s[1..]) + [s[0]]
  }

  lemma {:induction false} ReversedSnoc(s: seq<nat>, x: nat)
    ensures Reversed(s + [x]) == [x] + Reversed(s)
  {
    if s == [] {
      assert s + [x] == [x];
    } else {
      assert (s + [x])[1..] == s[1..] + [x];
      ReversedSnoc(s[1..], x);
    }
  }

  /** Earlier peaks end before later ones start. */
  lemma {:induction false} PeaksApart(ps: seq<Node>, n: nat, a: nat, b: nat)
    requires Tiled(ps, n) && a < b < |ps|
    ensures NodePos(ps[a].height, ps[a].index) < SubtreeStart(ps[b].height, ps[b].index)
    decreases b
  {
    hide NodePos, SubtreeStart, NodeCount;
    assert Adjacent(ps[b - 1], ps[b]);
    if a < b - 1 {
      PeaksApart(ps, n, a, b - 1);
      DescendantRange(ps[b - 1].height, ps[b - 1].index, 0);
      assert Shr(ps[b - 1].index, 0) == ps[b - 1].index;
    }
  }

  /** Going down from the ancestor c levels above (h, j) to the one c - 1 levels above. */
  lemma DescentStep(h: nat, j: nat, c: nat)
    requires c > 0
    ensures var p, left := NodePos(h + c, Shr(j, c)), NodePos(h + c, Shr(j, c)) - Pow2(h + c);
      var child := Shr(j, c - 1);
      if child % 2 == 0 then
        && NodePos(h, j) <= left == NodePos(h + c - 1, child) && NodePos(h + c - 1, SiblingIndex(child)) == p - 1
        && SubtreeStart(h + c - 1, child) == SubtreeStart(h + c, Shr(j, c))
      else
        && NodePos(h, j) > left == NodePos(h + c - 1, SiblingIndex(child)) && NodePos(h + c - 1, child) == p - 1
        && SubtreeStart(h + c - 1, child) == left + 1
  {
    hide Pow2, NodePos, SubtreeStart, Shr;
    var child := Shr(j, c - 1);
    ShrNext(j, c - 1);
    Pow2Next(h + c - 1);
    FamilyPositions(h + c - 1, child);
    SubtreeStartIs(h + c - 1, child);
    SubtreeStartIs(h + c, child / 2);
    DescendantRange(h, j, c - 1);
  }

  /** The height computed during the descent is right, because the offset is that of a first root. */
  lemma DescentHeight(n: nat, h: nat, j: nat)
    requires Complete(n, h, j) && n < MAX_LEAVES
    ensures NodePos(h, j) - SubtreeStart(h, j) == NodePos(h, 0) < U64_LIMIT - 65
  {
    HeightFits(n, h, j);
    PowFits(62);
    Pow2Order(h, 62);
    FirstRoot(h);
    SubtreeStartIs(h, j);
    assert Pow2(h + 1) == 2 * Pow2(h);
    WordSizes();
    assert Pow2(63) == 2 * Pow2(62);
  }

  /** The first peak at or after a node's position is the peak above the node. */
  lemma FirstPeakAfter(n: nat, h: nat, j: nat, k: nat)
    requires Complete(n, h, j) && k < |PeakNodes(n, 0)|
    requires NodePos(h, j) <= Positions(PeakNodes(n, 0))[k]
    requires forall i :: 0 <= i < k ==> Positions(PeakNodes(n, 0))[i] < NodePos(h, j)
    ensures PeakNodes(n, 0)[k] == Node(h + PeakHeight(n, h, j), Shr(j, PeakHeight(n, h, j)))
  {
    hide NodePos, SubtreeStart, PeakNodes, PeakHeight, NodeCount, Shl;
    var up := PeakHeight(n, h, j);
    var m := PeakListed(n, 0, h + up, Shr(j, up));
    DescendantRange(h, j, up);
    ShlZero(n);
    PeaksTile(n, 0);
    if k < m {
      PeaksApart(PeakNodes(n, 0), n, k, m);
    }
  }

  /**
   The sibling positions of the node at `pos`, bottom up; empty when no node is there.
   */
  method GetMmrPath(pos: nat, leafCount: nat) returns (path: seq<nat>)
    requires leafCount < MAX_LEAVES
    ensures pos >= NodeCount(leafCount) ==> path == []
    ensures forall h, j :: Complete(leafCount, h, j) && NodePos(h, j) == pos ==>
      path == SiblingPath(leafCount, h, j)
  {
    hide NodePos, SubtreeStart, NodeCount, PeakNodes, PeakHeight, Shl, Pow2, Shr, Rise, Positions, Complete;
    var peaks := GetMmrPeaks(leafCount);
    var peakStart := 0;
    var k := 0;
    while k < |peaks| && pos > peaks[k]
      invariant k <= |peaks|
      invariant forall i :: 0 <= i < k ==> peaks[i] < pos
      invariant peakStart == if k == 0 then 0 else peaks[k - 1] + 1
    {
      peakStart := peaks[k] + 1;
      k := k + 1;
    }
    if k == |peaks| {
      BeyondPeaks(leafCount, pos);
      return [];
    }
    ghost var h, j, up := LocateUnderPeak(leafCount, pos, k, peakStart);
    path := Descend(peaks[k], peakStart, pos, leafCount, h, j, up);
    forall h', j' | Complete(leafCount, h', j') && NodePos(h', j') == pos
      ensures path == SiblingPath(leafCount, h', j')
    {
      PosInjective(h, j, h', j');
    }
  }

  /** The descent loop of `GetMmrPath`, from a peak `up` levels above node (h, j). */
  method Descend(peakPos: nat, peakStart: nat, pos: nat, leafCount: nat, ghost h: nat, ghost j: nat, ghost up: nat)
    returns (path: seq<nat>)
    requires leafCount < MAX_LEAVES && Complete(leafCount, h + up, Shr(j, up))
    requires peakPos == NodePos(h + up, Shr(j, up)) && peakStart == SubtreeStart(h + up, Shr(j, up))
    requires pos == NodePos(h, j)
    ensures path == Positions(Rise(h, j, up))
  {
    hide NodePos, SubtreeStart, NodeCount, PeakNodes, PeakHeight, Shl, Pow2, Shr, Rise, Positions, Complete;
    hide HeightThreshold, Reversed;
    var p: nat, subtreeStart: nat, down: seq<nat> := peakPos, peakStart, [];
    ghost var c: nat := up;
    DescendantRange(h, j, c);
    ReversedEmpty();
    while p > pos
      invariant c <= up && p == NodePos(h + c, Shr(j, c)) >= pos && subtreeStart == SubtreeStart(h + c, Shr(j, c)) <= p
      invariant Complete(leafCount, h + c, Shr(j, c))
      invariant Positions(Rise(h, j, up)) == Positions(Rise(h, j, c)) + Reversed(down)
      decreases c
    {
      AtTarget(h, j, c);
      DescentHeight(leafCount, h + c, Shr(j, c));
      var height := GetMmrNodeHeight(p - subtreeStart);
      NodeHeightExact(height, h + c, 0);
      DescentStep(h, j, c);
      RiseMore(h, j, c - 1);
      DescendantComplete(leafCount, h, j, c, c - 1);
      DescendantRange(h, j, c - 1);
      DescendantRange(h + c - 1, Shr(j, c - 1), 0);
      var leftChild, rightChild := p - Pow2(height), p - 1;
      ghost var sibling := if pos <= leftChild then rightChild else leftChild;
      assert Positions(Rise(h, j, c - 1)) + [sibling] + Reversed(down)
        == Positions(Rise(h, j, c - 1)) + ([sibling] + Reversed(down));
      if pos <= leftChild {
        ReversedSnoc(down, rightChild);
        down := down + [rightChild];
        p := leftChild;
      } else {
        ReversedSnoc(down, leftChild);
        down := down + [leftChild];
        p := rightChild;
        subtreeStart := leftChild + 1;
      }
      c := c - 1;
    }
    AtTarget(h, j, c);
    RiseNone(h, j);
    path := Reversed(down);
  }

  lemma ReversedEmpty()
    ensures Reversed([]) == []
  {
  }

  lemma AtTarget(h: nat, j: nat, c: nat)
    ensures NodePos(h + c, Shr(j, c)) == NodePos(h, j) <==> c == 0
  {
    if NodePos(h + c, Shr(j, c)) == NodePos(h, j) {
      PosInjective(h + c, Shr(j, c), h, j);
    }
  }

  lemma BeyondPeaks(n: nat, pos: nat)
    requires forall i :: 0 <= i < |PeakNodes(n, 0)| ==> Positions(PeakNodes(n, 0))[i] < pos
    ensures pos >= NodeCount(n)
    ensures forall h, j :: Complete(n, h, j) ==> NodePos(h, j) != pos
  {
    hide NodePos, NodeCount, PeakNodes, Shl, SubtreeStart;
    if n > 0 {
      ShlZero(n);
      PeaksTile(n, 0);
      assert Positions(PeakNodes(n, 0))[|PeakNodes(n, 0)| - 1] < pos;
    } else {
      NothingCounted();
    }
    forall h, j | Complete(n, h, j)
      ensures NodePos(h, j) != pos
    {
      PosInUse(n, h, j);
    }
  }

  lemma NothingCounted()
    ensures NodeCount(0) == 0
  {
  }

  lemma PeakExtent(n: nat, k: nat)
    requires k < |PeakNodes(n, 0)|
    ensures Positions(PeakNodes(n, 0))[k] < NodeCount(n)
    ensures SubtreeStart(PeakNodes(n, 0)[k].height, PeakNodes(n, 0)[k].index)
      == if k == 0 then 0 else Positions(PeakNodes(n, 0))[k - 1] + 1
  {
    NoPeaks(0);
    hide NodePos, SubtreeStart, NodeCount, PeakNodes, Shl;
    ShlZero(n);
    PeaksArePeaks(n, 0);
    var p := PeakNodes(n, 0)[k];
    assert p in PeakNodes(n, 0);
    PosInUse(n, p.height, p.index);
    PeaksTile(n, 0);
    assert k > 0 ==> Adjacent(PeakNodes(n, 0)[k - 1], p);
  }

  lemma LocateUnderPeak(n: nat, pos: nat, k: nat, start: nat) returns (h: nat, j: nat, up: nat)
    requires k < |PeakNodes(n, 0)| && pos <= Positions(PeakNodes(n, 0))[k]
    requires forall i :: 0 <= i < k ==> Positions(PeakNodes(n, 0))[i] < pos
    requires start == if k == 0 then 0 else Positions(PeakNodes(n, 0))[k - 1] + 1
    ensures Complete(n, h, j) && NodePos(h, j) == pos && up == PeakHeight(n, h, j)
    ensures Complete(n, h + up, Shr(j, up))
    ensures Positions(PeakNodes(n, 0))[k] == NodePos(h + up, Shr(j, up))
    ensures start == SubtreeStart(h + up, Shr(j, up))
    ensures pos < NodeCount(n)
  {
    hide NodePos, SubtreeStart, NodeCount, PeakNodes, PeakHeight, Shr, Shl;
    PeakExtent(n, k);
    h, j := PosCovered(n, pos);
    up := PeakHeight(n, h, j);
    FirstPeakAfter(n, h, j, k);
  }

  /** The two algorithms agree on every leaf. */
  method SiblingsBothWays(leafIndex: nat, leafCount: nat) returns (up: Option<(nat, seq<nat>)>, down: seq<nat>)
    requires leafIndex < leafCount < MAX_LEAVES
    ensures up == Some((NodePos(0, leafIndex), down))
  {
    hide NodePos;
    up := ClimbToPeak(leafCount, 2 * leafCount - PopCount(leafCount), leafIndex);
    var pos := GetMmrNodePos(leafIndex);
    down := GetMmrPath(pos, leafCount);
  }
}
