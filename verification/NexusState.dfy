/**
 The state tracker: leaf texts, the rebuilt Merkle tree, its printed root and the MMR, all
 kept consistent by every update. One thread's view; `NexusLocks` adds interleaving.
 */
module NexusState {
  import opened Binary
  import opened Bytes
  import opened MmrShape
  import opened MmrForest
  import opened MmrFoundation
  import opened MmrPaths
  import opened MerkleTree

  datatype MmrProof = MmrProof(leaf: string, pos: nat, siblings: seq<(nat, string)>, peaks: seq<string>, root: string)

  /** Leaf texts as the MMR sees them. */
  function Encoded(leaves: seq<string>): (bs: seq<Leaf>)
    ensures |bs| == |leaves|
    ensures forall i :: 0 <= i < |leaves| ==> bs[i] == Utf8(leaves[i])
  {
    seq(|leaves|, i requires 0 <= i < |leaves| => Utf8(leaves[i]))
  }

  /** All MMR nodes of a list of leaf texts, with positions, from the ones of its first k leaves on. */
  function EntriesFrom(sha: Hash, leaves: seq<string>, k: nat): (es: seq<(nat, Digest)>)
    requires k <= |leaves|
  {
    PrefixLogged(sha, leaves, k);
    Entries(Log(sha, Encoded(leaves)), |Log(sha, Encoded(leaves[..k]))|)
  }

  lemma PrefixLogged(sha: Hash, leaves: seq<string>, k: nat)
    requires k <= |leaves|
    ensures Log(sha, Encoded(leaves[..k])) <= Log(sha, Encoded(leaves))
  {
    hide Utf8, Log;
    var s, t := Encoded(leaves[..k]), Encoded(leaves[k..]);
    assert s + t == Encoded(leaves);
    LogGrows(sha, s, t);
  }

  /** Outputs of consecutive updates join into the output of one update. */
  lemma EntriesFromJoin(sha: Hash, leaves: seq<string>, j: nat, k: nat)
    requires j <= k <= |leaves|
    ensures EntriesFrom(sha, leaves[..k], j) + EntriesFrom(sha, leaves, k) == EntriesFrom(sha, leaves, j)
  {
    hide Utf8, Log;
    PrefixLogged(sha, leaves, k);
    assert leaves[..k][..j] == leaves[..j];
    PrefixLogged(sha, leaves[..k], j);
    EntriesJoin(Log(sha, Encoded(leaves[..k])), Log(sha, Encoded(leaves)), |Log(sha, Encoded(leaves[..j]))|);
  }

  class Tracker {
    const sha: Hash
    const mmr: Mmr
    var stateRoot: string
    var leaves: seq<string>
    var treeLevels: seq<Level>

    ghost predicate Valid()
      reads this, mmr
    {
      && mmr.sha == sha && mmr.Valid() && mmr.leaves == Encoded(leaves)
      && stateRoot == StateRootText(sha, leaves)
      && treeLevels == TreeLevels(sha, leaves)
    }

    constructor (sha: Hash)
      ensures Valid() && fresh(mmr) && this.sha == sha && leaves == []
    {
      this.sha := sha;
      mmr := new Mmr(sha);
      stateRoot, leaves, treeLevels := ZeroRoot(), [], [];
    }

    /** Recomputes tree and root from the given leaves. */
    method RebuildTree()
      modifies this`stateRoot, this`treeLevels
      ensures stateRoot == StateRootText(sha, leaves) && treeLevels == TreeLevels(sha, leaves)
    {
      stateRoot, treeLevels := BuildTree(sha, leaves);
    }

    /** Appends a batch; returns exactly the MMR nodes the batch created. */
    method UpdateStateBatch(txIds: seq<string>) returns (addedNodes: seq<(nat, Digest)>)
      requires Valid() && |leaves| + |txIds| <= MAX_LEAVES
      modifies this`leaves, this`stateRoot, this`treeLevels, mmr
      ensures Valid() && leaves == old(leaves) + txIds
      ensures addedNodes == EntriesFrom(sha, leaves, |old(leaves)|)
    {
      leaves := leaves + txIds;
      assert leaves[..|old(leaves)|] == old(leaves);
      RebuildTree();
      addedNodes := AppendLeaves(txIds, old(leaves));
    }

    /** The append loop shared by the two writers. */
    method AppendLeaves(texts: seq<string>, ghost before: seq<string>) returns (addedNodes: seq<(nat, Digest)>)
      requires mmr.sha == sha && mmr.Valid() && mmr.leaves == Encoded(before)
      requires |before| + |texts| <= MAX_LEAVES
      modifies mmr
      ensures mmr.Valid() && mmr.leaves == Encoded(before + texts)
      ensures addedNodes == EntriesFrom(sha, before + texts, |before|)
    {
      hide Utf8, Log;
      addedNodes := [];
      ghost var done := before;
      NoEntries(sha, before);
      for i := 0 to |texts|
        invariant done == before + texts[..i]
        invariant mmr.Valid() && mmr.leaves == Encoded(done)
        invariant addedNodes == EntriesFrom(sha, done, |before|)
      {
        var nodes := mmr.AddLeaf(Utf8(texts[i]));
        ghost var next := done + [texts[i]];
        assert Encoded(next) == Encoded(done) + [Utf8(texts[i])];
        assert next[..|done|] == done;
        EntriesFromJoin(sha, next, |before|, |done|);
        done := next;
        assert done == before + texts[..i + 1];
        addedNodes := addedNodes + nodes;
      }
      assert texts[..|texts|] == texts;
    }

    /** Replaces everything by the state of the given leaves, whatever was there before. */
    method SetInitialLeaves(initial: seq<string>)
      requires mmr.sha == sha && |initial| <= MAX_LEAVES
      modifies this`leaves, this`stateRoot, this`treeLevels, mmr
      ensures Valid() && leaves == initial
    {
      leaves := initial;
      RebuildTree();
      mmr.peaks, mmr.size, mmr.nodeCount, mmr.leaves := [], 0, 0, [];
      var _ := AppendLeaves(initial, []);
      assert [] + initial == initial;
    }

    /**
     Overwrites peaks and size but not the node count: the tracker stays consistent exactly
     when the arguments already are the current peaks and leaf count.
     */
    method SetMmrState(peaks: seq<Digest>, size: nat)
      requires Valid()
      modifies mmr`peaks, mmr`size
      ensures Valid() <==> peaks == Peaks(sha, Encoded(leaves)) && size == |leaves|
    {
      mmr.peaks := peaks;
      mmr.size := size;
    }

    /** The first position of a leaf text. */
    method GetLeafIndex(txId: string) returns (index: Option<nat>)
      ensures index == if txId in leaves then Some(FirstIndex(leaves, txId)) else None
    {
      for i := 0 to |leaves|
        invariant txId !in leaves[..i]
      {
        if leaves[i] == txId {
          FirstIndexIs(leaves, txId, i);
          return Some(i);
        }
        assert leaves[..i + 1] == leaves[..i] + [leaves[i]];
      }
      assert leaves[..|leaves|] == leaves;
      return None;
    }

    /** A proof for a leaf text, and it is always one the checker accepts. */
    method GenerateMerkleProof(key: string) returns (proof: Option<MerkleProof>)
      requires Valid()
      ensures key !in leaves ==> proof == None
      ensures key in leaves ==> proof == Some(ProofFor(sha, leaves, key)) && Accepts(sha, proof.value)
    {
      var index := GetLeafIndex(key);
      if index.None? || treeLevels == [] {
        return None;
      }
      var path := PathFromLevels(sha, HashLeaves(sha, leaves), treeLevels, index.value);
      GeneratedProofsVerify(sha, leaves, key);
      return Some(MerkleProof(key, path, stateRoot));
    }

    /** Position and sibling positions of a leaf in the MMR. */
    method GetMmrProofMetadata(leafIndex: nat) returns (r: Option<(nat, seq<nat>)>)
      requires Valid()
      ensures leafIndex >= |leaves| ==> r.None?
      ensures leafIndex < |leaves| < MAX_LEAVES ==>
        Complete(|leaves|, 0, leafIndex)
        && r == Some((NodePos(0, leafIndex), SiblingPath(|leaves|, 0, leafIndex)))
      ensures |leaves| == MAX_LEAVES ==> r.None?
    {
      hide NodePos, NodeCount, SiblingPath, Shl;
      r := ClimbToPeak(|leaves|, mmr.nodeCount, leafIndex);
    }

    /** Current printed peaks and root beside the given leaf and siblings. */
    method AssembleMmrProof(leaf: string, pos: nat, siblings: seq<(nat, string)>) returns (proof: MmrProof)
      requires Valid()
      ensures proof.leaf == leaf && proof.pos == pos && proof.siblings == siblings
      ensures |proof.peaks| == |Peaks(sha, Encoded(leaves))| == PopCount(|leaves|)
      ensures forall k :: 0 <= k < |proof.peaks| ==> proof.peaks[k] == Print0x(Peaks(sha, Encoded(leaves))[k])
      ensures proof.root == MmrRootText(sha, Encoded(leaves))
    {
      PeaksByBits(|leaves|, 0);
      hide Print0x, PeakNodes, NodeDigest, Utf8, PopCount;
      var peaks := [];
      for k := 0 to |mmr.peaks|
        invariant |peaks| == k && forall i :: 0 <= i < k ==> peaks[i] == Print0x(mmr.peaks[i])
      {
        peaks := peaks + [Print0x(mmr.peaks[k])];
      }
      var root := mmr.GetRoot();
      proof := MmrProof(leaf, pos, siblings, peaks, root);
    }
  }

  lemma NoEntries(sha: Hash, leaves: seq<string>)
    ensures EntriesFrom(sha, leaves, |leaves|) == []
  {
    assert leaves[..|leaves|] == leaves;
  }

  lemma {:induction false} FirstIndexIs(leaves: seq<string>, key: string, i: nat)
    requires i < |leaves| && leaves[i] == key && key !in leaves[..i]
    ensures key in leaves && FirstIndex(leaves, key) == i
  {
    var f := FirstIndex(leaves, key);
    assert !(f < i) && !(i < f);
  }

  /** Consistent trackers with the same leaves agree on everything. */
  lemma SameLeavesSameState(a: Tracker, b: Tracker)
    requires a.Valid() && b.Valid() && a.sha == b.sha && a.leaves == b.leaves
    ensures a.stateRoot == b.stateRoot && a.treeLevels == b.treeLevels
    ensures a.mmr.peaks == b.mmr.peaks && a.mmr.size == b.mmr.size && a.mmr.nodeCount == b.mmr.nodeCount
  {
  }

  function Flatten<T>(batches: seq<seq<T>>): seq<T> {
    if batches == [] then [] else Flatten(batches[..|batches| - 1]) + batches[|batches| - 1]
  }

  /**
   However a list is split into batches, from a fresh tracker the final state and the joined
   outputs are those of the whole list in one batch.
   */
  method ReplayBatches(sha: Hash, batches: seq<seq<string>>)
    returns (t: Tracker, whole: Tracker, outputs: seq<(nat, Digest)>, output: seq<(nat, Digest)>)
    requires |Flatten(batches)| <= MAX_LEAVES
    ensures fresh(t) && fresh(whole) && t.Valid() && whole.Valid()
    ensures t.leaves == whole.leaves == Flatten(batches)
    ensures t.stateRoot == whole.stateRoot && t.treeLevels == whole.treeLevels
    ensures t.mmr.peaks == whole.mmr.peaks && t.mmr.size == whole.mmr.size && t.mmr.nodeCount == whole.mmr.nodeCount
    ensures outputs == output
  {
    hide Log, Utf8, MmrRootText, StateRootText, TreeLevels, Peaks;
    t := new Tracker(sha);
    outputs := [];
    NoEntries(sha, []);
    for i := 0 to |batches|
      invariant fresh(t) && fresh(t.mmr) && t.Valid() && t.sha == sha
      invariant t.leaves == Flatten(batches[..i])
      invariant outputs == EntriesFrom(sha, t.leaves, 0)
    {
      assert batches[..i + 1][..i] == batches[..i];
      FlattenGrows(batches, i + 1);
      ghost var before := t.leaves;
      var nodes := t.UpdateStateBatch(batches[i]);
      assert t.leaves[..|before|] == before;
      EntriesFromJoin(sha, t.leaves, 0, |before|);
      outputs := outputs + nodes;
    }
    assert batches[..|batches|] == batches;
    whole := new Tracker(sha);
    output := whole.UpdateStateBatch(Flatten(batches));
    SameLeavesSameState(t, whole);
  }

  lemma {:induction false} FlattenGrows(batches: seq<seq<string>>, i: nat)
    requires i <= |batches|
    ensures |Flatten(batches[..i])| <= |Flatten(batches)|
    decreases |batches|
  {
    if i < |batches| {
      var front := batches[..|batches| - 1];
      assert front[..i] == batches[..i];
      FlattenGrows(front, i);
    } else {
      assert batches[..i] == batches;
    }
  }
}
