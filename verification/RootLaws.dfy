/**
 What the two printed roots are, said without the functions that compute them: their text, the
 bytes hashed for small lists, how the MMR root grows, that the state root of any list is the
 MMR root of the padded list, and what the proof checker accepts.
 */
module RootLaws {
  import opened Binary
  import opened Bytes
  import opened MmrShape
  import opened MmrForest
  import opened MmrFoundation
  import opened MerkleTree
  import opened MerkleLimits
  import opened NexusState

  // ---------------------------------------------------------------- texts

  const SIXTEEN_ZEROS: string := "0000000000000000"

  /** "0x" and 64 zeros, spelled out. */
  function ZeroText(): string {
    "0x" + SIXTEEN_ZEROS + SIXTEEN_ZEROS + SIXTEEN_ZEROS + SIXTEEN_ZEROS
  }

  lemma ZeroRootText()
    ensures ZeroRoot() == ZeroText()
  {
    assert SIXTEEN_ZEROS == seq(16, _ => '0');
    hide SIXTEEN_ZEROS;
  }

  /** The state root is "0x" and the 64 lower-case digits of a digest, or zeros for no leaves. */
  lemma StateRootPrinted(sha: Hash, leaves: seq<string>)
    ensures leaves != [] ==> IsDigestText(StateRootText(sha, leaves))
    ensures leaves == [] ==> StateRootText(sha, leaves) == ZeroText()
  {
    ZeroRootText();
    hide ZeroRoot, ZeroText, Print0x, IsDigestText, RootDigest, HashLeaves;
    if leaves != [] {
      PrintedDigest(RootDigest(sha, HashLeaves(sha, leaves)));
    }
  }

  /** And so is the MMR root. */
  lemma MmrRootPrinted(sha: Hash, s: seq<Leaf>)
    ensures s != [] ==> IsDigestText(MmrRootText(sha, s))
    ensures s == [] ==> MmrRootText(sha, s) == ZeroText()
  {
    ZeroRootText();
    hide ZeroRoot, ZeroText, Print0x, IsDigestText, Bag;
    SomePeaks(sha, s);
    if s != [] {
      PrintedDigest(Bag(sha, Peaks(sha, s)));
    }
  }

  lemma SomePeaks(sha: Hash, s: seq<Leaf>)
    ensures Peaks(sha, s) == [] <==> s == []
  {
    PeaksByBits(|s|, 0);
    if s != [] {
      PopCountPositive(|s|);
    }
    hide PeakNodes, NodeDigest;
  }

  // ---------------------------------------------------------------- bytes of small lists

  lemma TwoDigests(sha: Hash, x: Digest, y: Digest)
    ensures NextLevel(sha, [x, y]) == [sha(Pair(x, y))] && RootDigest(sha, [x, y]) == sha(Pair(x, y))
  {
    assert PairAt([x, y], 0) == Pair(x, y);
    assert NextLevel(sha, [x, y]) == [sha(Pair(x, y))];
    hide NextLevel, Pair;
  }

  lemma ThreeDigests(sha: Hash, x: Digest, y: Digest, z: Digest)
    ensures RootDigest(sha, [x, y, z]) == sha(Pair(sha(Pair(x, y)), sha(Pair(z, z))))
  {
    assert PairAt([x, y, z], 0) == Pair(x, y) && PairAt([x, y, z], 1) == Pair(z, z);
    assert NextLevel(sha, [x, y, z]) == [sha(Pair(x, y)), sha(Pair(z, z))];
    hide NextLevel, Pair;
    TwoDigests(sha, sha(Pair(x, y)), sha(Pair(z, z)));
  }

  /** One, two and three leaves: which bytes are hashed, in which order. */
  lemma SmallStateRoots(sha: Hash, a: string, b: string, c: string)
    ensures var x: seq<Byte>, y: seq<Byte>, z: seq<Byte> := sha(Utf8(a)), sha(Utf8(b)), sha(Utf8(c));
      var xy: seq<Byte>, zz: seq<Byte> := sha(x + y), sha(z + z);
      && StateRootText(sha, [a]) == Print0x(x)
      && StateRootText(sha, [a, b]) == Print0x(xy)
      && StateRootText(sha, [a, b, c]) == Print0x(sha(xy + zz))
  {
    var x, y, z := sha(Utf8(a)), sha(Utf8(b)), sha(Utf8(c));
    hide Utf8, Print0x, ZeroRoot;
    assert HashLeaves(sha, [a]) == [x] && RootDigest(sha, [x]) == x;
    assert HashLeaves(sha, [a, b]) == [x, y];
    assert HashLeaves(sha, [a, b, c]) == [x, y, z];
    hide HashLeaves, RootDigest;
    TwoDigests(sha, x, y);
    ThreeDigests(sha, x, y, z);
  }

  /** Each further peak is hashed before the root of the peaks above it. */
  lemma BagSnoc(sha: Hash, ps: seq<Digest>, p: seq<Byte>)
    requires ps != [] && |p| == 32
    ensures Bag(sha, ps + [p]) == sha(p + Bag(sha, ps))
  {
    var qs: seq<Digest> := ps + [p];
    assert qs[..|qs| - 1] == ps && qs[|qs| - 1] == p;
  }

  lemma EvenAppendPeaks(sha: Hash, s: seq<Leaf>, leaf: Leaf)
    requires |s| % 2 == 0
    ensures Peaks(sha, s + [leaf]) == Peaks(sha, s) + [sha(leaf)]
  {
    var t := s + [leaf];
    PeaksCarry(|s|, 0);
    assert NodeDigest(sha, t, 0, |s|) == sha(leaf);
    hide PeakNodes, NodeDigest;
    PeaksCarryOver(sha, s, t);
    DigestsSnoc(sha, t, PeakNodes(|s|, 0), Node(0, |s|));
  }

  /** A leaf appended to an even number of leaves is hashed before the old root. */
  lemma EvenAppendRoot(sha: Hash, s: seq<Leaf>, leaf: Leaf)
    requires s != [] && |s| % 2 == 0
    ensures Peaks(sha, s) != [] && Peaks(sha, s + [leaf]) != []
    ensures var old': seq<Byte>, digest: seq<Byte> := Bag(sha, Peaks(sha, s)), sha(leaf);
      Bag(sha, Peaks(sha, s + [leaf])) == sha(digest + old')
  {
    hide Peaks, Bag;
    SomePeaks(sha, s);
    EvenAppendPeaks(sha, s, leaf);
    BagSnoc(sha, Peaks(sha, s), sha(leaf));
  }

  // ---------------------------------------------------------------- the two roots agree

  /** The first n nodes of a height. */
  function Nodes(sha: Hash, s: seq<Leaf>, h: nat, n: nat): (level: Level)
    ensures |level| == n && forall j :: 0 <= j < n ==> level[j] == NodeDigest(sha, s, h, j)
  {
    seq<Digest>(n, j requires 0 <= j < n => NodeDigest(sha, s, h, j))
  }

  lemma NodesPair(sha: Hash, s: seq<Leaf>, h: nat, m: nat)
    ensures NextLevel(sha, Nodes(sha, s, h, 2 * m)) == Nodes(sha, s, h + 1, m)
  {
    var level := Nodes(sha, s, h, 2 * m);
    forall i | 0 <= i < m
      ensures NextLevel(sha, level)[i] == NodeDigest(sha, s, h + 1, i)
    {
      assert PairAt(level, i) == Pair(NodeDigest(sha, s, h, 2 * i), NodeDigest(sha, s, h, 2 * i + 1));
    }
  }

  lemma {:induction false} PerfectRoot(sha: Hash, s: seq<Leaf>, h: nat, d: nat)
    ensures RootDigest(sha, Nodes(sha, s, h, Pow2(d))) == NodeDigest(sha, s, h + d, 0)
    decreases d
  {
    if d > 0 {
      NodesPair(sha, s, h, Pow2(d - 1));
      PerfectRoot(sha, s, h + 1, d - 1);
      assert Pow2(d) == 2 * Pow2(d - 1);
      hide NodeDigest, NextLevel, Nodes;
    }
  }

  /** 2^d leaves have one peak. */
  lemma OnePeak(d: nat)
    ensures PeakNodes(Pow2(d), 0) == [Node(d, 0)]
  {
    ShlOne(d);
    PeaksSkipZeros(1, d, 0);
    PeaksOdd(0, d);
    NoPeaks(d + 1);
    hide PeakNodes, Shl;
  }

  /** A list of 2^d leaves has the same state root and MMR root. */
  lemma PowerOfTwoRootsAgree(sha: Hash, leaves: seq<string>, d: nat)
    requires |leaves| == Pow2(d)
    ensures StateRootText(sha, leaves) == MmrRootText(sha, Encoded(leaves))
  {
    hide Print0x, ZeroRoot, Utf8;
    var s := Encoded(leaves);
    assert HashLeaves(sha, leaves) == Nodes(sha, s, 0, |leaves|);
    PerfectRoot(sha, s, 0, d);
    OnePeak(d);
    assert Peaks(sha, s) == [NodeDigest(sha, s, d, 0)];
  }

  /** Any list has the state root that the MMR has of the list padded to a full tree. */
  lemma StateRootIsPaddedMmrRoot(sha: Hash, leaves: seq<string>)
    requires leaves != []
    ensures StateRootText(sha, leaves) == MmrRootText(sha, Encoded(Padded(leaves)))
  {
    hide Print0x, ZeroRoot, Utf8, RootDigest, Slots;
    PaddedDigests(sha, leaves);
    PaddedRoot(sha, HashLeaves(sha, leaves));
    PowerOfTwoRootsAgree(sha, Padded(leaves), Depth(|leaves|));
  }

  // ---------------------------------------------------------------- the checker

  /** Running digests of a proof: each step appends the sibling's bytes or puts them in front. */
  ghost predicate IsChain(sha: Hash, chain: seq<Digest>, leaf: string, path: Path) {
    && |chain| == |path| + 1 && chain[0] == sha(Utf8(leaf))
    && forall k :: 0 <= k < |path| ==> Links(sha, chain[k], path[k], chain[k + 1])
  }

  predicate Links(sha: Hash, current: Digest, step: (string, bool), next: Digest) {
    match HexDecode(Trim0x(step.0))
    case None => false
    case Some(sibling) => next == sha(if step.1 then current + sibling else sibling + current)
  }

  ghost predicate ChainFrom(sha: Hash, chain: seq<Digest>, current: Digest, path: Path) {
    && |chain| == |path| + 1 && chain[0] == current
    && forall k :: 0 <= k < |path| ==> Links(sha, chain[k], path[k], chain[k + 1])
  }

  lemma {:induction false} ChainFolds(sha: Hash, chain: seq<Digest>, current: Digest, path: Path)
    requires ChainFrom(sha, chain, current, path)
    ensures FoldProof(sha, current, path) == Some(chain[|path|])
    decreases |path|
  {
    hide HexDecode, Trim0x;
    if path != [] {
      assert Links(sha, chain[0], path[0], chain[1]);
      var rest, more := chain[1..], path[1..];
      forall k | 0 <= k < |more|
        ensures Links(sha, rest[k], more[k], rest[k + 1])
      {
        assert Links(sha, chain[k + 1], path[k + 1], chain[k + 1 + 1]);
      }
      ChainFolds(sha, rest, chain[1], more);
    }
  }

  lemma {:induction false} FoldChains(sha: Hash, current: Digest, path: Path) returns (chain: seq<Digest>)
    requires FoldProof(sha, current, path).Some?
    ensures ChainFrom(sha, chain, current, path)
    decreases |path|
  {
    hide HexDecode, Trim0x;
    if path == [] {
      chain := [current];
    } else {
      var sibling := HexDecode(Trim0x(path[0].0)).value;
      var next := sha(Joined(current, sibling, path[0].1));
      var rest := FoldChains(sha, next, path[1..]);
      chain := [current] + rest;
      assert Links(sha, chain[0], path[0], chain[1]);
      forall k | 0 <= k < |path|
        ensures Links(sha, chain[k], path[k], chain[k + 1])
      {
        if k > 0 {
          assert Links(sha, rest[k - 1], path[1..][k - 1], rest[k]);
        }
      }
    }
  }

  /** A proof is accepted exactly when such a chain leads from its leaf to its root. */
  lemma AcceptsIffChain(sha: Hash, proof: MerkleProof)
    ensures Accepts(sha, proof) <==>
      exists chain :: IsChain(sha, chain, proof.leaf, proof.path) && proof.root == Print0x(chain[|proof.path|])
  {
    hide HexDecode, Trim0x, Print0x, Utf8, FoldProof, Links;
    var current := sha(Utf8(proof.leaf));
    if Accepts(sha, proof) {
      var chain := FoldChains(sha, current, proof.path);
      ChainFolds(sha, chain, current, proof.path);
      assert IsChain(sha, chain, proof.leaf, proof.path);
    }
    if chain :| IsChain(sha, chain, proof.leaf, proof.path) && proof.root == Print0x(chain[|proof.path|]) {
      ChainFolds(sha, chain, current, proof.path);
    }
  }
}
