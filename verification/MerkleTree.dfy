/**
 The binary Merkle tree over the leaf texts: how it is built, the proofs generated from it,
 the checker, and what an accepted proof or an equal root means.
 */
module MerkleTree {
  import opened Bytes
  import opened MmrFoundation

  datatype MerkleProof = MerkleProof(leaf: string, path: Path, root: string)

  type Level = seq<Digest>
  type Path = seq<(string, bool)>

  // ---------------------------------------------------------------- construction

  function HashLeaves(sha: Hash, leaves: seq<string>): (level: Level)
    ensures |level| == |leaves|
    ensures forall i :: 0 <= i < |leaves| ==> level[i] == sha(Utf8(leaves[i]))
  {
    seq<Digest>(|leaves|, i requires 0 <= i < |leaves| => sha(Utf8(leaves[i])))
  }

  /** The bytes hashed for node i of the next level; an odd last node is paired with itself. */
  function PairAt(level: Level, i: nat): seq<Byte>
    requires 2 * i < |level|
  {
    Pair(level[2 * i], if 2 * i + 1 < |level| then level[2 * i + 1] else level[2 * i])
  }

  function NextLevel(sha: Hash, level: Level): (next: Level)
    ensures |next| == (|level| + 1) / 2
    ensures forall i :: 0 <= i < |next| ==> next[i] == sha(PairAt(level, i))
  {
    seq<Digest>((|level| + 1) / 2, i requires 0 <= i < (|level| + 1) / 2 => sha(PairAt(level, i)))
  }

  function Levels(sha: Hash, level: Level): (levels: seq<Level>)
    ensures |levels| == Depth(|level|) + 1 && levels[0] == level
    decreases |level|
  {
    if |level| <= 1 then [level] else [level] + Levels(sha, NextLevel(sha, level))
  }

  function Depth(n: nat): nat {
    if n <= 1 then 0 else 1 + Depth((n + 1) / 2)
  }

  function RootDigest(sha: Hash, level: Level): Digest
    requires level != []
    decreases |level|
  {
    if |level| == 1 then level[0] else RootDigest(sha, NextLevel(sha, level))
  }

  function StateRootText(sha: Hash, leaves: seq<string>): string {
    if leaves == [] then ZeroRoot() else Print0x(RootDigest(sha, HashLeaves(sha, leaves)))
  }

  function TreeLevels(sha: Hash, leaves: seq<string>): seq<Level> {
    if leaves == [] then [] else Levels(sha, HashLeaves(sha, leaves))
  }

  lemma {:induction false} LastLevelIsRoot(sha: Hash, level: Level)
    requires level != []
    ensures |Levels(sha, level)[Depth(|level|)]| == 1
    ensures Levels(sha, level)[Depth(|level|)][0] == RootDigest(sha, level)
    decreases |level|
  {
    if |level| > 1 {
      LastLevelIsRoot(sha, NextLevel(sha, level));
    }
  }

  /** The tree of a list of leaves, level by level, and its printed root. */
  method BuildTree(sha: Hash, leaves: seq<string>) returns (root: string, levels: seq<Level>)
    ensures root == StateRootText(sha, leaves) && levels == TreeLevels(sha, leaves)
  {
    if leaves == [] {
      return ZeroRoot(), [];
    }
    hide Utf8, Print0x, PairAt, Levels, RootDigest, NextLevel, Depth;
    var currentLevel := HashEach(sha, leaves);
    ghost var bottom := currentLevel;
    levels := [currentLevel];
    ghost var below: seq<Level> := [];
    while |currentLevel| > 1
      invariant currentLevel != [] && levels == below + [currentLevel]
      invariant below + Levels(sha, currentLevel) == Levels(sha, bottom)
      invariant RootDigest(sha, currentLevel) == RootDigest(sha, bottom)
      decreases |currentLevel|
    {
      LevelsStep(sha, currentLevel);
      ghost var above := Levels(sha, NextLevel(sha, currentLevel));
      assert below + ([currentLevel] + above) == (below + [currentLevel]) + above;
      below := below + [currentLevel];
      currentLevel := HashPairs(sha, currentLevel);
      levels := levels + [currentLevel];
    }
    LevelsStep(sha, currentLevel);
    root := Print0x(currentLevel[0]);
  }

  lemma LevelsStep(sha: Hash, level: Level)
    requires level != []
    ensures |level| > 1 ==> Levels(sha, level) == [level] + Levels(sha, NextLevel(sha, level))
    ensures |level| > 1 ==> RootDigest(sha, level) == RootDigest(sha, NextLevel(sha, level))
    ensures |level| == 1 ==> Levels(sha, level) == [level] && RootDigest(sha, level) == level[0]
  {
  }

  method HashEach(sha: Hash, leaves: seq<string>) returns (level: Level)
    ensures level == HashLeaves(sha, leaves)
  {
    hide Utf8;
    level := [];
    for i := 0 to |leaves|
      invariant |level| == i && forall k :: 0 <= k < i ==> level[k] == sha(Utf8(leaves[k]))
    {
      level := level + [sha(Utf8(leaves[i]))];
    }
  }

  /** One pass over the chunks of two. */
  method HashPairs(sha: Hash, level: Level) returns (next: Level)
    ensures next == NextLevel(sha, level)
  {
    next := [];
    var i := 0;
    while i < |level|
      invariant i == 2 * |next| && |next| <= (|level| + 1) / 2
      invariant forall k :: 0 <= k < |next| ==> next[k] == sha(PairAt(level, k))
    {
      var digest: Digest;
      if i + 1 < |level| {
        digest := HashPair(sha, level[i], level[i + 1]);
      } else {
        digest := HashPair(sha, level[i], level[i]);
      }
      next := next + [digest];
      i := i + 2;
    }
  }

  // ---------------------------------------------------------------- proofs

  function SiblingAt(level: Level, idx: nat): Digest
    requires idx < |level|
  {
    if idx % 2 == 0 then (if idx + 1 < |level| then level[idx + 1] else level[idx]) else level[idx - 1]
  }

  /** Siblings of entry idx, bottom up, printed, with the flag "the running hash goes first". */
  function ProofPath(sha: Hash, level: Level, idx: nat): Path
    requires idx < |level|
    decreases |level|
  {
    if |level| <= 1 then []
    else [(Print0x(SiblingAt(level, idx)), idx % 2 == 0)] + ProofPath(sha, NextLevel(sha, level), idx / 2)
  }

  function FirstIndex(leaves: seq<string>, key: string): (i: nat)
    requires key in leaves
    ensures i < |leaves| && leaves[i] == key && key !in leaves[..i]
  {
    if leaves[0] == key then 0
    else
      assert leaves == [leaves[0]] + leaves[1..];
      var i := FirstIndex(leaves[1..], key);
      assert leaves[..i + 1] == [leaves[0]] + leaves[1..][..i];
      i + 1
  }

  function ProofFor(sha: Hash, leaves: seq<string>, key: string): MerkleProof
    requires key in leaves
  {
    MerkleProof(key, ProofPath(sha, HashLeaves(sha, leaves), FirstIndex(leaves, key)), StateRootText(sha, leaves))
  }

  /** The path read off stored levels, one level at a time. */
  method PathFromLevels(ghost sha: Hash, ghost bottom: Level, levels: seq<Level>, index: nat) returns (path: Path)
    requires index < |bottom| && levels == Levels(sha, bottom)
    ensures path == ProofPath(sha, bottom, index)
  {
    hide Print0x, Levels, ProofPath, NextLevel, Depth;
    path := [];
    var idx: nat := index;
    ghost var level := bottom;
    for k := 0 to |levels| - 1
      invariant levels[k..] == Levels(sha, level) && idx < |level|
      invariant path + ProofPath(sha, level, idx) == ProofPath(sha, bottom, index)
    {
      PathStep(sha, levels, k, level, idx);
      var siblingIdx: nat;
      if idx % 2 == 0 {
        siblingIdx := if idx + 1 < |levels[k]| then idx + 1 else idx;
      } else {
        siblingIdx := idx - 1;
      }
      ghost var rest := ProofPath(sha, NextLevel(sha, level), idx / 2);
      var step := (Print0x(levels[k][siblingIdx]), idx % 2 == 0);
      assert path + ([step] + rest) == (path + [step]) + rest;
      path := path + [step];
      idx := idx / 2;
      level := NextLevel(sha, level);
    }
    PathEnd(sha, level, idx);
  }

  lemma PathStep(sha: Hash, levels: seq<Level>, k: nat, level: Level, idx: nat)
    requires k < |levels| - 1 && levels[k..] == Levels(sha, level) && idx < |level|
    ensures levels[k] == level && idx / 2 < |NextLevel(sha, level)|
    ensures levels[k + 1..] == Levels(sha, NextLevel(sha, level))
    ensures ProofPath(sha, level, idx)
      == [(Print0x(SiblingAt(level, idx)), idx % 2 == 0)] + ProofPath(sha, NextLevel(sha, level), idx / 2)
  {
    hide Print0x, PairAt;
    assert |levels[k..]| == Depth(|level|) + 1 > 1;
    assert levels[k] == levels[k..][0];
    assert levels[k + 1..] == levels[k..][1..];
  }

  lemma PathEnd(sha: Hash, level: Level, idx: nat)
    requires |Levels(sha, level)| == 1 && idx < |level|
    ensures ProofPath(sha, level, idx) == []
  {
  }

  /** The running hash after a whole path; `None` when a sibling does not decode. */
  function FoldProof(sha: Hash, current: Digest, path: Path): Option<Digest>
    decreases |path|
  {
    if path == [] then Some(current)
    else
      var sibling :- HexDecode(Trim0x(path[0].0));
      FoldProof(sha, sha(Joined(current, sibling, path[0].1)), path[1..])
  }

  /** The sibling may have any length; only its order relative to the running hash is fixed. */
  function Joined(current: Digest, sibling: seq<Byte>, first: bool): seq<Byte> {
    if first then Pair(current, sibling) else Pair(sibling, current)
  }

  predicate Accepts(sha: Hash, proof: MerkleProof) {
    var top := FoldProof(sha, sha(Utf8(proof.leaf)), proof.path);
    top.Some? && Print0x(top.value) == proof.root
  }

  method VerifyMerkleProof(sha: Hash, proof: MerkleProof) returns (ok: bool)
    ensures ok == Accepts(sha, proof)
  {
    var currentHash := sha(Utf8(proof.leaf));
    for i := 0 to |proof.path|
      invariant FoldProof(sha, currentHash, proof.path[i..]) == FoldProof(sha, sha(Utf8(proof.leaf)), proof.path)
    {
      assert proof.path[i..][1..] == proof.path[i + 1..];
      var (text, isLeft) := proof.path[i];
      var decoded := HexDecode(Trim0x(text));
      if decoded.None? {
        return false;
      }
      if isLeft {
        currentHash := HashPair(sha, currentHash, decoded.value);
      } else {
        currentHash := HashPair(sha, decoded.value, currentHash);
      }
    }
    ok := Print0x(currentHash) == proof.root;
  }

  // ---------------------------------------------------------------- completeness

  lemma {:induction false} PathFoldsToRoot(sha: Hash, level: Level, idx: nat)
    requires idx < |level|
    ensures FoldProof(sha, level[idx], ProofPath(sha, level, idx)) == Some(RootDigest(sha, level))
    decreases |level|
  {
    if |level| > 1 {
      hide Print0x, HexDecode, Trim0x;
      var sibling := SiblingAt(level, idx);
      PrintedDigestReadsBack(sibling);
      assert Joined(level[idx], sibling, idx % 2 == 0) == PairAt(level, idx / 2);
      PathFoldsToRoot(sha, NextLevel(sha, level), idx / 2);
    }
  }

  /** Every generated proof is accepted, whatever the number of leaves. */
  lemma GeneratedProofsVerify(sha: Hash, leaves: seq<string>, key: string)
    requires key in leaves
    ensures Accepts(sha, ProofFor(sha, leaves, key))
  {
    PathFoldsToRoot(sha, HashLeaves(sha, leaves), FirstIndex(leaves, key));
  }

  // ---------------------------------------------------------------- soundness

  /** Byte strings hashed by the checker after the leaf. */
  function FoldInputs(sha: Hash, current: Digest, path: Path): set<seq<Byte>>
    decreases |path|
  {
    if path == [] then {}
    else
      match HexDecode(Trim0x(path[0].0))
      case None => {}
      case Some(sibling) =>
        var x := Joined(current, sibling, path[0].1);
        {x} + FoldInputs(sha, sha(x), path[1..])
  }

  /** Byte strings hashed to build the tree above a level. */
  function TreeInputs(sha: Hash, level: Level): set<seq<Byte>>
    decreases |level|
  {
    if |level| <= 1 then {}
    else (set i | 0 <= i < (|level| + 1) / 2 :: PairAt(level, i)) + TreeInputs(sha, NextLevel(sha, level))
  }

  function LeafInputs(leaves: seq<string>): set<seq<Byte>> {
    set i | 0 <= i < |leaves| :: Utf8(leaves[i])
  }

  lemma JoinedIsPair(level: Level, i: nat, current: Digest, sibling: seq<Byte>, first: bool)
    requires 2 * i < |level|
    requires Joined(current, sibling, first) == PairAt(level, i)
    ensures current in level
  {
    var x := PairAt(level, i);
    if first {
      assert current == Pair(current, sibling)[..32] == x[..32] == level[2 * i];
    } else {
      assert |sibling| == 32;
      assert current == Pair(sibling, current)[32..] == x[32..];
    }
  }

  lemma {:induction false} FoldSound(sha: Hash, current: Digest, path: Path, level: Level, inputs: set<seq<Byte>>)
    requires level != [] && |path| == Depth(|level|)
    requires FoldProof(sha, current, path) == Some(RootDigest(sha, level))
    requires FoldInputs(sha, current, path) <= inputs && TreeInputs(sha, level) <= inputs
    requires InjectiveOn(sha, inputs)
    ensures current in level
    decreases |level|
  {
    if |level| > 1 {
      var x := Joined(current, HexDecode(Trim0x(path[0].0)).value, path[0].1);
      hide HexDecode, Trim0x, Joined;
      var next := NextLevel(sha, level);
      FoldSound(sha, sha(x), path[1..], next, inputs);
      var i :| 0 <= i < |next| && next[i] == sha(x);
      PairsAreInputs(sha, level);
      assert x == PairAt(level, i);
      JoinedIsPair(level, i, current, HexDecode(Trim0x(path[0].0)).value, path[0].1);
    }
  }

  /** All byte strings hashed when a proof is checked against a tree. */
  function ProofInputs(sha: Hash, proof: MerkleProof, leaves: seq<string>): set<seq<Byte>> {
    {Utf8(proof.leaf)} + FoldInputs(sha, sha(Utf8(proof.leaf)), proof.path)
    + LeafInputs(leaves) + TreeInputs(sha, HashLeaves(sha, leaves))
  }

  /** An accepted proof of full depth is about a real leaf, or two of the byte strings hashed collide. */
  lemma AcceptedLeafIsPresent(sha: Hash, proof: MerkleProof, leaves: seq<string>)
    requires leaves != [] && Accepts(sha, proof) && proof.root == StateRootText(sha, leaves)
    requires |proof.path| == Depth(|leaves|)
    ensures proof.leaf in leaves || Collision(sha, ProofInputs(sha, proof, leaves))
  {
    hide ProofInputs, Accepts, StateRootText, Depth, InjectiveOn, Collision;
    InjectiveUnlessCollision(sha, ProofInputs(sha, proof, leaves));
    if !Collision(sha, ProofInputs(sha, proof, leaves)) {
      AcceptedLeafKnown(sha, proof, leaves);
    }
  }

  lemma AcceptedLeafKnown(sha: Hash, proof: MerkleProof, leaves: seq<string>)
    requires leaves != [] && Accepts(sha, proof) && proof.root == StateRootText(sha, leaves)
    requires |proof.path| == Depth(|leaves|)
    requires InjectiveOn(sha, ProofInputs(sha, proof, leaves))
    ensures proof.leaf in leaves
  {
    hide Print0x, FoldProof, RootDigest, FoldInputs, TreeInputs, Utf8, Depth, ZeroRoot, LeafInputs, HashLeaves;
    hide InjectiveOn;
    var level := HashLeaves(sha, leaves);
    var inputs := ProofInputs(sha, proof, leaves);
    PrintInjective(FoldProof(sha, sha(Utf8(proof.leaf)), proof.path).value, RootDigest(sha, level));
    FoldSound(sha, sha(Utf8(proof.leaf)), proof.path, level, inputs);
    LeafFromDigest(sha, leaves, proof.leaf, inputs);
  }

  lemma LeafFromDigest(sha: Hash, leaves: seq<string>, leaf: string, inputs: set<seq<Byte>>)
    requires sha(Utf8(leaf)) in HashLeaves(sha, leaves)
    requires LeafInputs(leaves) <= inputs && Utf8(leaf) in inputs && InjectiveOn(sha, inputs)
    ensures leaf in leaves
  {
    hide Utf8;
    var i :| 0 <= i < |leaves| && HashLeaves(sha, leaves)[i] == sha(Utf8(leaf));
    assert Utf8(leaves[i]) in LeafInputs(leaves);
    Utf8Injective(leaves[i], leaf);
  }

  // ---------------------------------------------------------------- binding

  lemma NextLevelBinds(sha: Hash, a: Level, b: Level, inputs: set<seq<Byte>>)
    requires |a| == |b| > 1 && NextLevel(sha, a) == NextLevel(sha, b)
    requires forall i :: 0 <= i < (|a| + 1) / 2 ==> PairAt(a, i) in inputs && PairAt(b, i) in inputs
    requires InjectiveOn(sha, inputs)
    ensures a == b
  {
    forall k | 0 <= k < |a|
      ensures a[k] == b[k]
    {
      var i := k / 2;
      assert NextLevel(sha, a)[i] == NextLevel(sha, b)[i];
      assert PairAt(a, i) == PairAt(b, i);
      if 2 * i + 1 < |a| {
        PairSplits(a[2 * i], a[2 * i + 1], b[2 * i], b[2 * i + 1]);
      } else {
        PairSplits(a[2 * i], a[2 * i], b[2 * i], b[2 * i]);
      }
    }
  }

  lemma {:induction false} LevelBinds(sha: Hash, a: Level, b: Level, inputs: set<seq<Byte>>)
    requires |a| == |b| > 0 && RootDigest(sha, a) == RootDigest(sha, b)
    requires TreeInputs(sha, a) <= inputs && TreeInputs(sha, b) <= inputs && InjectiveOn(sha, inputs)
    ensures a == b
    decreases |a|
  {
    hide PairAt;
    if |a| > 1 {
      LevelBinds(sha, NextLevel(sha, a), NextLevel(sha, b), inputs);
      PairsAreInputs(sha, a);
      PairsAreInputs(sha, b);
      hide InjectiveOn, TreeInputs;
      NextLevelBinds(sha, a, b, inputs);
    }
  }

  lemma PairsAreInputs(sha: Hash, level: Level)
    requires |level| > 1
    ensures forall i :: 0 <= i < (|level| + 1) / 2 ==> PairAt(level, i) in TreeInputs(sha, level)
  {
  }

  /** Byte strings hashed from the leaves to the state root. */
  function RootInputs(sha: Hash, leaves: seq<string>): set<seq<Byte>> {
    LeafInputs(leaves) + TreeInputs(sha, HashLeaves(sha, leaves))
  }

  /** Lists of equal length with the same state root are equal, or two of the byte strings hashed collide. */
  lemma StateRootBinds(sha: Hash, s: seq<string>, t: seq<string>)
    requires |s| == |t| && StateRootText(sha, s) == StateRootText(sha, t)
    ensures s == t || Collision(sha, RootInputs(sha, s) + RootInputs(sha, t))
  {
    hide RootInputs, StateRootText, InjectiveOn, Collision;
    var inputs := RootInputs(sha, s) + RootInputs(sha, t);
    InjectiveUnlessCollision(sha, inputs);
    if !Collision(sha, inputs) {
      SameRootSameLeaves(sha, s, t);
    }
  }

  lemma SameRootSameLeaves(sha: Hash, s: seq<string>, t: seq<string>)
    requires |s| == |t| && StateRootText(sha, s) == StateRootText(sha, t)
    requires InjectiveOn(sha, RootInputs(sha, s) + RootInputs(sha, t))
    ensures s == t
  {
    if s != [] {
      var a, b := HashLeaves(sha, s), HashLeaves(sha, t);
      var inputs := RootInputs(sha, s) + RootInputs(sha, t);
      PrintInjective(RootDigest(sha, a), RootDigest(sha, b));
      hide RootDigest, TreeInputs, Print0x, Utf8;
      LevelBinds(sha, a, b, inputs);
      forall i | 0 <= i < |s|
        ensures s[i] == t[i]
      {
        assert a[i] == b[i];
        assert Utf8(s[i]) in inputs && Utf8(t[i]) in inputs;
        Utf8Injective(s[i], t[i]);
      }
    }
  }

  /** Without equal lengths the root does not bind: an odd list shares it with its padded form. */
  lemma OddListSharesRoot(sha: Hash, s: seq<string>)
    requires |s| >= 3 && |s| % 2 == 1
    ensures StateRootText(sha, s) == StateRootText(sha, s + [s[|s| - 1]])
  {
    var a, b := HashLeaves(sha, s), HashLeaves(sha, s + [s[|s| - 1]]);
    assert NextLevel(sha, a) == NextLevel(sha, b) by {
      forall i | 0 <= i < (|a| + 1) / 2
        ensures NextLevel(sha, a)[i] == NextLevel(sha, b)[i]
      {
        assert PairAt(a, i) == PairAt(b, i);
      }
    }
  }
}
