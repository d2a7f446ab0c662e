/**
 What a sibling path proves, and what an MMR root commits to.
 */
module MmrProofs {
  import opened Binary
  import opened Bytes
  import opened MmrShape
  import opened MmrForest
  import opened MmrFoundation
  import opened MmrPaths

  // ---------------------------------------------------------------- inclusion

  /** All positions are written ones. */
  predicate AllBelow(ps: seq<nat>, n: nat) {
    forall k :: 0 <= k < |ps| ==> ps[k] < n
  }

  /**
   Folds a digest at `pos` with the logged digests at the sibling positions, bottom up. The
   smaller position is hashed first; the parent follows the larger one.
   */
  function FoldPath(sha: Hash, log: seq<Digest>, pos: nat, digest: Digest, siblings: seq<nat>): (nat, Digest)
    requires AllBelow(siblings, |log|)
    decreases |siblings|
  {
    if siblings == [] then (pos, digest)
    else
      var (p, d) := FoldPath(sha, log, pos, digest, siblings[..|siblings| - 1]);
      FoldStep(sha, log, p, d, siblings[|siblings| - 1])
  }

  function FoldStep(sha: Hash, log: seq<Digest>, p: nat, d: Digest, q: nat): (nat, Digest)
    requires q < |log|
  {
    if q < p then (p + 1, HashPair(sha, log[q], d)) else (q + 1, HashPair(sha, d, log[q]))
  }

  lemma FoldMore(sha: Hash, log: seq<Digest>, pos: nat, digest: Digest, siblings: seq<nat>, q: nat)
    requires AllBelow(siblings, |log|) && q < |log|
    ensures AllBelow(siblings + [q], |log|)
    ensures var below := FoldPath(sha, log, pos, digest, siblings);
      FoldPath(sha, log, pos, digest, siblings + [q]) == FoldStep(sha, log, below.0, below.1, q)
  {
    assert (siblings + [q])[..|siblings|] == siblings;
  }

  /** One step of the fold from a complete node with a complete sibling reaches the parent. */
  lemma FoldStepReachesParent(sha: Hash, s: seq<Leaf>, h: nat, j: nat)
    requires Complete(|s|, h, j) && Complete(|s|, h, SiblingIndex(j))
    ensures NodePos(h, SiblingIndex(j)) < |Log(sha, s)|
    ensures FoldStep(sha, Log(sha, s), NodePos(h, j), NodeDigest(sha, s, h, j), NodePos(h, SiblingIndex(j)))
      == (NodePos(h + 1, j / 2), NodeDigest(sha, s, h + 1, j / 2))
  {
    hide NodePos, Log, Shl, NodeDigest;
    FamilyPositions(h, j);
    LogAt(sha, s, h, SiblingIndex(j));
    ChildrenDigest(sha, s, h, j);
  }

  /** Folding from any node up k levels computes the ancestor there. */
  lemma {:induction false} FoldReachesAncestor(sha: Hash, s: seq<Leaf>, h: nat, j: nat, k: nat)
    requires Complete(|s|, h + k, Shr(j, k))
    ensures AllBelow(Positions(Rise(h, j, k)), |Log(sha, s)|)
    ensures FoldPath(sha, Log(sha, s), NodePos(h, j), NodeDigest(sha, s, h, j), Positions(Rise(h, j, k)))
      == (NodePos(h + k, Shr(j, k)), NodeDigest(sha, s, h + k, Shr(j, k)))
    decreases k
  {
    hide NodePos, Log, Shl, NodeDigest, Rise, Positions, FoldStep, SiblingIndex, Complete;
    if k == 0 {
      RiseNone(h, j);
    } else {
      ShrNext(j, k - 1);
      hide Shr, FoldPath;
      DescendantComplete(|s|, h, j, k, k - 1);
      FoldReachesAncestor(sha, s, h, j, k - 1);
      RiseMore(h, j, k - 1);
      FoldStepReachesParent(sha, s, h + k - 1, Shr(j, k - 1));
      FoldMore(sha, Log(sha, s), NodePos(h, j), NodeDigest(sha, s, h, j), Positions(Rise(h, j, k - 1)),
               NodePos(h + k - 1, SiblingIndex(Shr(j, k - 1))));
    }
  }

  lemma ChildrenDigest(sha: Hash, s: seq<Leaf>, h: nat, j: nat)
    ensures NodeDigest(sha, s, h + 1, j / 2) ==
      if j % 2 == 1 then HashPair(sha, NodeDigest(sha, s, h, j - 1), NodeDigest(sha, s, h, j))
      else HashPair(sha, NodeDigest(sha, s, h, j), NodeDigest(sha, s, h, j + 1))
  {
    assert j == 2 * (j / 2) + j % 2;
  }

  /** Index k is the one peak with this position and digest. */
  ghost predicate IsPeakNumber(sha: Hash, s: seq<Leaf>, k: nat, top: (nat, Digest)) {
    && k < |Peaks(sha, s)|
    && Positions(PeakNodes(|s|, 0))[k] == top.0 && Peaks(sha, s)[k] == top.1
    && forall k' :: 0 <= k' < |Peaks(sha, s)| && Positions(PeakNodes(|s|, 0))[k'] == top.0 ==> k' == k
  }

  /**
   The computed sibling path of any leaf, folded with the logged digests, gives exactly one
   of the current peaks.
   */
  lemma LeafProofReachesOnePeak(sha: Hash, s: seq<Leaf>, i: nat)
    requires i < |s|
    ensures Complete(|s|, 0, i)
    ensures AllBelow(SiblingPath(|s|, 0, i), |Log(sha, s)|)
    ensures exists k :: IsPeakNumber(sha, s, k,
      FoldPath(sha, Log(sha, s), NodePos(0, i), sha(s[i]), SiblingPath(|s|, 0, i)))
  {
    hide NodePos, PeakNodes, Shr, Shl, NodeDigest, Log, Rise, PeakHeight, FoldPath, Positions, IsPeakNumber;
    LeafDigest(sha, s, i);
    ShlZero(i + 1);
    var up := PeakHeight(|s|, 0, i);
    FoldReachesAncestor(sha, s, 0, i, up);
    var k := PeakListed(|s|, 0, up, Shr(i, up));
    PeakHasNumber(sha, s, k);
  }

  lemma PeakHasNumber(sha: Hash, s: seq<Leaf>, k: nat)
    requires k < |PeakNodes(|s|, 0)|
    ensures var p := PeakNodes(|s|, 0)[k];
      IsPeakNumber(sha, s, k, (NodePos(p.height, p.index), NodeDigest(sha, s, p.height, p.index)))
  {
    hide NodePos, PeakNodes, NodeDigest;
    OnePeakThere(|s|, k);
  }

  lemma LeafDigest(sha: Hash, s: seq<Leaf>, i: nat)
    requires i < |s|
    ensures NodeDigest(sha, s, 0, i) == sha(s[i])
  {
  }

  /** Peaks have distinct positions. */
  lemma OnePeakThere(n: nat, k: nat)
    requires k < |PeakNodes(n, 0)|
    ensures forall i :: 0 <= i < |PeakNodes(n, 0)| ==>
      Positions(PeakNodes(n, 0))[i] == Positions(PeakNodes(n, 0))[k] ==> i == k
  {
    hide NodePos, PeakNodes;
    var ps := PeakNodes(n, 0);
    PeaksByBits(n, 0);
    forall i | 0 <= i < |ps| && Positions(ps)[i] == Positions(ps)[k]
      ensures i == k
    {
      PosInjective(ps[i].height, ps[i].index, ps[k].height, ps[k].index);
    }
  }

  // ---------------------------------------------------------------- binding

  /** Byte strings hashed to compute a node. */
  function NodeInputs(sha: Hash, s: seq<Leaf>, h: nat, j: nat): set<seq<Byte>>
    decreases h
  {
    if h == 0 then (if j < |s| then {s[j]} else {})
    else
      var l, r := NodeDigest(sha, s, h - 1, 2 * j), NodeDigest(sha, s, h - 1, 2 * j + 1);
      {Pair(l, r)} + NodeInputs(sha, s, h - 1, 2 * j) + NodeInputs(sha, s, h - 1, 2 * j + 1)
  }

  function TreesInputs(sha: Hash, s: seq<Leaf>, nodes: seq<Node>): set<seq<Byte>> {
    if nodes == [] then {}
    else NodeInputs(sha, s, nodes[0].height, nodes[0].index) + TreesInputs(sha, s, nodes[1..])
  }

  /** Byte strings hashed to bag the peaks. */
  function BagInputs(sha: Hash, peaks: seq<Digest>): set<seq<Byte>> {
    if |peaks| <= 1 then {}
    else
      var front := peaks[..|peaks| - 1];
      {Pair(peaks[|peaks| - 1], Bag(sha, front))} + BagInputs(sha, front)
  }

  /** Everything hashed on the way from the leaves to the root. */
  function RootInputs(sha: Hash, s: seq<Leaf>): set<seq<Byte>> {
    TreesInputs(sha, s, PeakNodes(|s|, 0)) + BagInputs(sha, Peaks(sha, s))
  }

  lemma {:induction false} TreesInputsHold(sha: Hash, s: seq<Leaf>, nodes: seq<Node>, k: nat)
    requires k < |nodes|
    ensures NodeInputs(sha, s, nodes[k].height, nodes[k].index) <= TreesInputs(sha, s, nodes)
    decreases nodes
  {
    hide NodeInputs;
    if k > 0 {
      TreesInputsHold(sha, s, nodes[1..], k - 1);
    }
  }

  lemma {:induction false} BagBinds(sha: Hash, ps: seq<Digest>, qs: seq<Digest>, inputs: set<seq<Byte>>)
    requires |ps| == |qs| > 0 && Bag(sha, ps) == Bag(sha, qs)
    requires BagInputs(sha, ps) <= inputs && BagInputs(sha, qs) <= inputs && InjectiveOn(sha, inputs)
    ensures ps == qs
  {
    var n := |ps| - 1;
    if n > 0 {
      var x := Pair(ps[n], Bag(sha, ps[..n]));
      var y := Pair(qs[n], Bag(sha, qs[..n]));
      assert x in inputs && y in inputs && sha(x) == sha(y);
      PairSplits(ps[n], Bag(sha, ps[..n]), qs[n], Bag(sha, qs[..n]));
      BagBinds(sha, ps[..n], qs[..n], inputs);
      assert ps == ps[..n] + [ps[n]] && qs == qs[..n] + [qs[n]];
    }
  }

  lemma ParentInputs(sha: Hash, s: seq<Leaf>, h: nat, m: nat)
    ensures var l, r := NodeDigest(sha, s, h, 2 * m), NodeDigest(sha, s, h, 2 * m + 1);
      && NodeDigest(sha, s, h + 1, m) == HashPair(sha, l, r)
      && NodeInputs(sha, s, h + 1, m) == {Pair(l, r)} + NodeInputs(sha, s, h, 2 * m) + NodeInputs(sha, s, h, 2 * m + 1)
  {
  }

  /** Equal parents mean equal children. */
  lemma ChildrenBind(sha: Hash, s: seq<Leaf>, t: seq<Leaf>, h: nat, c: nat, inputs: set<seq<Byte>>)
    requires NodeDigest(sha, s, h + 1, c / 2) == NodeDigest(sha, t, h + 1, c / 2)
    requires NodeInputs(sha, s, h + 1, c / 2) <= inputs && NodeInputs(sha, t, h + 1, c / 2) <= inputs
    requires InjectiveOn(sha, inputs)
    ensures NodeDigest(sha, s, h, c) == NodeDigest(sha, t, h, c)
    ensures NodeInputs(sha, s, h, c) <= inputs && NodeInputs(sha, t, h, c) <= inputs
  {
    hide NodeDigest, NodeInputs;
    var m := c / 2;
    ParentInputs(sha, s, h, m);
    ParentInputs(sha, t, h, m);
    var a, b := NodeDigest(sha, s, h, 2 * m), NodeDigest(sha, s, h, 2 * m + 1);
    var d, e := NodeDigest(sha, t, h, 2 * m), NodeDigest(sha, t, h, 2 * m + 1);
    assert Pair(a, b) in inputs && Pair(d, e) in inputs;
    PairSplits(a, b, d, e);
    assert c == 2 * m || c == 2 * m + 1;
  }

  lemma LeavesBind(sha: Hash, s: seq<Leaf>, t: seq<Leaf>, i: nat, inputs: set<seq<Byte>>)
    requires i < |s| == |t|
    requires NodeDigest(sha, s, 0, i) == NodeDigest(sha, t, 0, i)
    requires NodeInputs(sha, s, 0, i) <= inputs && NodeInputs(sha, t, 0, i) <= inputs
    requires InjectiveOn(sha, inputs)
    ensures s[i] == t[i]
  {
    assert s[i] in inputs && t[i] in inputs;
  }

  /** Equal ancestors mean equal leaves. */
  lemma {:induction false} AncestorBinds(sha: Hash, s: seq<Leaf>, t: seq<Leaf>, i: nat, k: nat, inputs: set<seq<Byte>>)
    requires i < |s| == |t|
    requires NodeDigest(sha, s, k, Shr(i, k)) == NodeDigest(sha, t, k, Shr(i, k))
    requires NodeInputs(sha, s, k, Shr(i, k)) <= inputs && NodeInputs(sha, t, k, Shr(i, k)) <= inputs
    requires InjectiveOn(sha, inputs)
    ensures s[i] == t[i]
    decreases k
  {
    hide NodeDigest, NodeInputs, InjectiveOn;
    if k == 0 {
      LeavesBind(sha, s, t, i, inputs);
    } else {
      ShrNext(i, k - 1);
      hide Shr;
      ChildrenBind(sha, s, t, k - 1, Shr(i, k - 1), inputs);
      AncestorBinds(sha, s, t, i, k - 1, inputs);
    }
  }

  /** Lists of equal length with the same MMR root are equal, or two of the byte strings hashed collide. */
  lemma MmrRootBinds(sha: Hash, s: seq<Leaf>, t: seq<Leaf>)
    requires |s| == |t| && MmrRootText(sha, s) == MmrRootText(sha, t)
    ensures s == t || Collision(sha, RootInputs(sha, s) + RootInputs(sha, t))
  {
    hide RootInputs, MmrRootText, InjectiveOn, Collision;
    var inputs := RootInputs(sha, s) + RootInputs(sha, t);
    InjectiveUnlessCollision(sha, inputs);
    if !Collision(sha, inputs) {
      SameRootSameLeaves(sha, s, t);
    }
  }

  lemma SameRootSameLeaves(sha: Hash, s: seq<Leaf>, t: seq<Leaf>)
    requires |s| == |t| && MmrRootText(sha, s) == MmrRootText(sha, t)
    requires InjectiveOn(sha, RootInputs(sha, s) + RootInputs(sha, t))
    ensures s == t
  {
    hide PeakNodes, Bag, BagInputs, NodeInputs, NodeDigest, Shr, Shl, PeakHeight, TreesInputs;
    var inputs := RootInputs(sha, s) + RootInputs(sha, t);
    SamePeaks(sha, s, t, inputs);
    forall i | 0 <= i < |s|
      ensures s[i] == t[i]
    {
      ShlZero(i + 1);
      var up := PeakHeight(|s|, 0, i);
      var k := PeakListed(|s|, 0, up, Shr(i, up));
      assert Peaks(sha, s)[k] == Peaks(sha, t)[k];
      TreesInputsHold(sha, s, PeakNodes(|s|, 0), k);
      TreesInputsHold(sha, t, PeakNodes(|s|, 0), k);
      AncestorBinds(sha, s, t, i, up, inputs);
    }
  }

  lemma SamePeaks(sha: Hash, s: seq<Leaf>, t: seq<Leaf>, inputs: set<seq<Byte>>)
    requires |s| == |t| && MmrRootText(sha, s) == MmrRootText(sha, t)
    requires BagInputs(sha, Peaks(sha, s)) <= inputs && BagInputs(sha, Peaks(sha, t)) <= inputs
    requires InjectiveOn(sha, inputs)
    ensures Peaks(sha, s) == Peaks(sha, t)
  {
    hide PeakNodes, Bag, BagInputs, NodeDigest, InjectiveOn;
    if |PeakNodes(|s|, 0)| > 0 {
      PrintInjective(Bag(sha, Peaks(sha, s)), Bag(sha, Peaks(sha, t)));
      BagBinds(sha, Peaks(sha, s), Peaks(sha, t), inputs);
    }
  }
}
