/**
 The incremental accumulator: peaks only, updated in place by `AddLeaf`.
 */
module MmrFoundation {
  import opened Binary
  import opened Bytes
  import opened MmrShape
  import opened MmrForest

  /** "0x" and 64 zeros, the root of an empty list. */
  function ZeroRoot(): string {
    "0x" + seq(64, _ => '0')
  }

  /** Peaks folded left to right, each later peak hashed before the running root. */
  function Bag(sha: Hash, peaks: seq<Digest>): Digest
    requires peaks != []
  {
    if |peaks| == 1 then peaks[0]
    else HashPair(sha, peaks[|peaks| - 1], Bag(sha, peaks[..|peaks| - 1]))
  }

  /** The printed MMR root of a list of leaves. */
  function MmrRootText(sha: Hash, s: seq<Leaf>): string {
    if Peaks(sha, s) == [] then ZeroRoot() else Print0x(Bag(sha, Peaks(sha, s)))
  }

  class Mmr {
    const sha: Hash
    var peaks: seq<Digest>
    var size: nat
    var nodeCount: nat
    /** The leaves appended so far. */
    ghost var leaves: seq<Leaf>

    ghost predicate Valid()
      reads this
    {
      && size == |leaves| <= MAX_LEAVES
      && nodeCount == NodeCount(size)
      && peaks == Peaks(sha, leaves)
    }

    constructor (sha: Hash)
      ensures Valid() && this.sha == sha && leaves == []
    {
      this.sha, peaks, size, nodeCount, leaves := sha, [], 0, 0, [];
    }

    /**
     Appends one leaf. The peak popped at each carry always exists, the 64-bit node counter
     never overflows below 2^63 leaves, and the nodes returned are the next log entries.
     */
    method AddLeaf(leaf: Leaf) returns (added: seq<(nat, Digest)>)
      requires Valid() && size < MAX_LEAVES
      modifies this
      ensures Valid() && leaves == old(leaves) + [leaf]
      ensures |Log(sha, old(leaves))| == old(nodeCount) && |Log(sha, leaves)| == nodeCount < U64_LIMIT
      ensures added == Entries(Log(sha, leaves), old(nodeCount))
    {
      ghost var s := leaves + [leaf];
      hide PeakNodes, Burst, Log, NodeDigest, PopCount;
      CarryStart(sha, leaves, leaf);
      var currentHash := sha(leaf);
      added := [(nodeCount, currentHash)];
      nodeCount := nodeCount + 1;
      var pos := size;
      ghost var h, written := 0, [];
      while pos % 2 == 1
        invariant size == old(size) && leaves == old(leaves)
        invariant Carrying(sha, s, size, h, pos, currentHash, peaks, written)
        invariant nodeCount == old(nodeCount) + |added|
        invariant Numbered(added, old(nodeCount), written + [currentHash])
        decreases pos
      {
        CarryStep(sha, s, size, h, pos, currentHash, peaks, written);
        var peak := peaks[|peaks| - 1];
        peaks := peaks[..|peaks| - 1];
        written := written + [currentHash];
        currentHash := HashPair(sha, peak, currentHash);
        added := added + [(nodeCount, currentHash)];
        nodeCount := nodeCount + 1;
        pos := pos / 2;
        h := h + 1;
      }
      CarryEnd(sha, leaves, leaf, h, pos, currentHash, peaks, written);
      peaks := peaks + [currentHash];
      size := size + 1;
      leaves := s;
      CounterFits(size);
    }

    /** The printed root of the current leaves. */
    method GetRoot() returns (root: string)
      requires Valid()
      ensures root == MmrRootText(sha, leaves)
    {
      if |peaks| == 0 {
        return ZeroRoot();
      }
      var rootHash := peaks[0];
      for i := 1 to |peaks|
        invariant rootHash == Bag(sha, peaks[..i])
      {
        assert peaks[..i + 1][..i] == peaks[..i];
        rootHash := HashPair(sha, peaks[i], rootHash);
      }
      assert peaks[..|peaks|] == peaks;
      return Print0x(rootHash);
    }
  }

  /** `added` is `ds` with consecutive positions from `start`. */
  ghost predicate Numbered(added: seq<(nat, Digest)>, start: nat, ds: seq<Digest>) {
    && |added| == |ds|
    && forall k :: 0 <= k < |ds| ==> added[k] == (start + k, ds[k])
  }

  /**
   State of the carry loop at height h: `hash` is the new node there, `peaks` are the peaks
   left of it, and `written` are the digests already emitted below it.
   */
  ghost predicate Carrying(sha: Hash, s: seq<Leaf>, n: nat, h: nat, pos: nat, hash: Digest,
                           peaks: seq<Digest>, written: seq<Digest>)
  {
    && hash == NodeDigest(sha, s, h, pos)
    && peaks == Digests(sha, s, PeakNodes(pos, h))
    && PeakNodes(n + 1, 0) == PeakNodes(pos + 1, h)
    && Burst(sha, s, 0, n) == written + Burst(sha, s, h, pos)
  }

  lemma CarryStart(sha: Hash, leaves: seq<Leaf>, leaf: Leaf)
    ensures Carrying(sha, leaves + [leaf], |leaves|, 0, |leaves|, sha(leaf), Peaks(sha, leaves), [])
  {
    PeaksCarryOver(sha, leaves, leaves + [leaf]);
  }

  /** A set bit means there is a peak to merge with, and merging moves one height up. */
  lemma CarryStep(sha: Hash, s: seq<Leaf>, n: nat, h: nat, pos: nat, hash: Digest,
                  peaks: seq<Digest>, written: seq<Digest>)
    requires Carrying(sha, s, n, h, pos, hash, peaks, written) && pos % 2 == 1
    ensures |peaks| > 0
    ensures Carrying(sha, s, n, h + 1, pos / 2, HashPair(sha, peaks[|peaks| - 1], hash),
                     peaks[..|peaks| - 1], written + [hash])
  {
    PeaksCarry(pos, h);
    CarryDigests(sha, s, h, pos);
    hide PeakNodes, NodeDigest, Burst;
    var below := PeakNodes(pos / 2, h + 1);
    DigestsSnoc(sha, s, below, Node(h, pos - 1));
    assert peaks[..|peaks| - 1] == Digests(sha, s, below);
    var rest := Burst(sha, s, h + 1, pos / 2);
    assert written + ([hash] + rest) == (written + [hash]) + rest;
  }

  lemma CarryDigests(sha: Hash, s: seq<Leaf>, h: nat, pos: nat)
    requires pos % 2 == 1
    ensures NodeDigest(sha, s, h + 1, pos / 2)
      == HashPair(sha, NodeDigest(sha, s, h, pos - 1), NodeDigest(sha, s, h, pos))
    ensures Burst(sha, s, h, pos) == [NodeDigest(sha, s, h, pos)] + Burst(sha, s, h + 1, pos / 2)
  {
    assert pos == 2 * (pos / 2) + 1;
  }

  /** A clear bit ends the carry: peaks and log are those of the longer list. */
  lemma CarryEnd(sha: Hash, leaves: seq<Leaf>, leaf: Leaf, h: nat, pos: nat, hash: Digest,
                 peaks: seq<Digest>, written: seq<Digest>)
    requires Carrying(sha, leaves + [leaf], |leaves|, h, pos, hash, peaks, written) && pos % 2 == 0
    ensures Peaks(sha, leaves + [leaf]) == peaks + [hash]
    ensures Log(sha, leaves + [leaf]) == Log(sha, leaves) + (written + [hash])
    ensures |Log(sha, leaves)| == NodeCount(|leaves|)
    ensures |Log(sha, leaves + [leaf])| == NodeCount(|leaves| + 1)
  {
    var s := leaves + [leaf];
    assert s[..|leaves|] == leaves;
    PeaksCarry(pos, h);
    DigestsSnoc(sha, s, PeakNodes(pos, h), Node(h, pos));
    LogLength(sha, leaves);
    LogLength(sha, s);
  }

  /** The old peaks keep their digests in the longer list. */
  lemma PeaksCarryOver(sha: Hash, s: seq<Leaf>, t: seq<Leaf>)
    requires s <= t
    ensures Peaks(sha, s) == Digests(sha, t, PeakNodes(|s|, 0))
  {
    PeaksArePeaks(|s|, 0);
    forall k | 0 <= k < |PeakNodes(|s|, 0)|
      ensures Peaks(sha, s)[k] == Digests(sha, t, PeakNodes(|s|, 0))[k]
    {
      var p := PeakNodes(|s|, 0)[k];
      assert p in PeakNodes(|s|, 0);
      DigestStable(sha, s, t, p.height, p.index);
    }
  }
}
