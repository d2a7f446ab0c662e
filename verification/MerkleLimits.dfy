/**
 How far the Merkle root binds: exactly which lists of the same depth share a root, and why
 an accepted proof must have the depth of the tree.
 */
module MerkleLimits {
  import opened Binary
  import opened Bytes
  import opened MmrFoundation
  import opened MerkleTree

  // ---------------------------------------------------------------- lists that share a root

  /** Leaf standing in each of the 2^depth slots of the full tree over n leaves. */
  function Slots(n: nat): (slots: seq<nat>)
    requires n > 0
    ensures |slots| == Pow2(Depth(n))
    ensures forall k :: 0 <= k < |slots| ==> slots[k] < n
  {
    if n == 1 then [0]
    else Widened(Slots((n + 1) / 2), n)
  }

  /** Both children of each slot. */
  function Widened(above: seq<nat>, n: nat): (slots: seq<nat>)
    requires forall k :: 0 <= k < |above| ==> 2 * above[k] < n
    ensures |slots| == 2 * |above|
    ensures forall k :: 0 <= k < |slots| ==> slots[k] == ChildSlot(above[k / 2], k % 2, n)
  {
    seq(2 * |above|, k requires 0 <= k < 2 * |above| => ChildSlot(above[k / 2], k % 2, n))
  }

  /** An odd last node is its own right child. */
  function ChildSlot(i: nat, side: nat, n: nat): (c: nat)
    requires 2 * i < n && side <= 1
    ensures c < n
  {
    if side == 1 && 2 * i + 1 < n then 2 * i + 1 else 2 * i
  }

  /** The list padded to a full tree by repeating last nodes level by level. */
  function Padded<T>(s: seq<T>): (p: seq<T>)
    requires s != []
    ensures |p| == |Slots(|s|)|
    ensures forall k :: 0 <= k < |p| ==> p[k] == s[Slots(|s|)[k]]
  {
    seq(|Slots(|s|)|, k requires 0 <= k < |Slots(|s|)| => s[Slots(|s|)[k]])
  }

  lemma SlotsStep(n: nat, k: nat)
    requires n > 1 && k < |Slots((n + 1) / 2)|
    ensures |Slots(n)| == 2 * |Slots((n + 1) / 2)|
    ensures Slots(n)[2 * k] == 2 * Slots((n + 1) / 2)[k]
    ensures Slots(n)[2 * k + 1] == ChildSlot(Slots((n + 1) / 2)[k], 1, n)
  {
    var above := Slots((n + 1) / 2);
    assert Slots(n) == Widened(above, n);
    hide Slots;
    assert 2 * k / 2 == k && 2 * k % 2 == 0;
    assert (2 * k + 1) / 2 == k && (2 * k + 1) % 2 == 1;
  }

  lemma SlotsDouble(n: nat)
    requires n > 1
    ensures |Slots(n)| == 2 * |Slots((n + 1) / 2)| > 0
  {
    SlotsStep(n, 0);
  }

  /** The pairs hashed in the padded level are ones of the unpadded level. */
  lemma PaddedPair(level: Level, k: nat)
    requires |level| > 1 && k < |Slots((|level| + 1) / 2)|
    ensures 2 * k < |Padded(level)|
    ensures PairAt(Padded(level), k) == PairAt(level, Slots((|level| + 1) / 2)[k])
  {
    hide Slots;
    SlotsStep(|level|, k);
  }

  /** Padding commutes with hashing a level. */
  lemma PaddedNext(sha: Hash, level: Level)
    requires |level| > 1
    ensures |Padded(level)| > 1
    ensures NextLevel(sha, Padded(level)) == Padded(NextLevel(sha, level))
  {
    hide Slots, PairAt;
    SlotsDouble(|level|);
    var next, wide := NextLevel(sha, level), NextLevel(sha, Padded(level));
    assert |wide| == |Padded(next)|;
    forall k | 0 <= k < |wide|
      ensures wide[k] == Padded(next)[k]
    {
      PaddedPair(level, k);
    }
  }

  lemma TreeStart(sha: Hash, level: Level)
    ensures Levels(sha, level)[0] == level && (|level| <= 1 ==> Depth(|level|) == 0)
  {
  }

  lemma TreeStep(sha: Hash, level: Level)
    requires |level| > 1
    ensures RootDigest(sha, level) == RootDigest(sha, NextLevel(sha, level))
    ensures Depth(|level|) == 1 + Depth(|NextLevel(sha, level)|)
    ensures TreeInputs(sha, NextLevel(sha, level)) <= TreeInputs(sha, level)
  {
  }

  /** Padding keeps the root and hashes nothing new. */
  lemma {:induction false} PaddedRoot(sha: Hash, level: Level)
    requires level != []
    ensures RootDigest(sha, Padded(level)) == RootDigest(sha, level)
    ensures TreeInputs(sha, Padded(level)) <= TreeInputs(sha, level)
    decreases |level|
  {
    if |level| == 1 {
      assert Padded(level) == level;
    } else {
      var next := NextLevel(sha, level);
      PaddedNext(sha, level);
      PaddedRoot(sha, next);
      TreeStep(sha, level);
      TreeStep(sha, Padded(level));
      hide Slots, RootDigest, TreeInputs;
      PaddedInputs(sha, level);
    }
  }

  lemma PaddedInputs(sha: Hash, level: Level)
    requires |level| > 1 && |Padded(level)| > 1
    requires TreeInputs(sha, NextLevel(sha, Padded(level))) <= TreeInputs(sha, NextLevel(sha, level))
    ensures TreeInputs(sha, Padded(level)) <= TreeInputs(sha, level)
  {
    hide Slots, PairAt, TreeInputs;
    var wide := Padded(level);
    SlotsDouble(|level|);
    PairsAreInputs(sha, level);
    TreeStep(sha, level);
    forall i | 0 <= i < (|wide| + 1) / 2
      ensures PairAt(wide, i) in TreeInputs(sha, level)
    {
      PaddedPair(level, i);
    }
    TreeInputsStep(sha, wide, TreeInputs(sha, level));
  }

  lemma TreeInputsStep(sha: Hash, level: Level, inputs: set<seq<Byte>>)
    requires |level| > 1 && TreeInputs(sha, NextLevel(sha, level)) <= inputs
    requires forall i :: 0 <= i < (|level| + 1) / 2 ==> PairAt(level, i) in inputs
    ensures TreeInputs(sha, level) <= inputs
  {
    hide PairAt;
  }

  /**
   Two lists whose trees have the same depth share a state root if they pad to the same list,
   and only if they do or two of the byte strings hashed collide.
   */
  lemma SharedRootIffSamePadding(sha: Hash, s: seq<string>, t: seq<string>)
    requires s != [] && t != [] && Depth(|s|) == Depth(|t|)
    ensures Padded(s) == Padded(t) ==> StateRootText(sha, s) == StateRootText(sha, t)
    ensures StateRootText(sha, s) == StateRootText(sha, t) ==>
      Padded(s) == Padded(t) || Collision(sha, RootInputs(sha, s) + RootInputs(sha, t))
  {
    hide RootInputs, StateRootText, InjectiveOn, Collision, Depth, Padded;
    var inputs := RootInputs(sha, s) + RootInputs(sha, t);
    InjectiveUnlessCollision(sha, inputs);
    if Padded(s) == Padded(t) {
      SamePaddingSharesRoot(sha, s, t);
    } else if !Collision(sha, inputs) && StateRootText(sha, s) == StateRootText(sha, t) {
      SharedRootSamePadding(sha, s, t);
    }
  }

  lemma SamePaddingSharesRoot(sha: Hash, s: seq<string>, t: seq<string>)
    requires s != [] && t != [] && Padded(s) == Padded(t)
    ensures StateRootText(sha, s) == StateRootText(sha, t)
  {
    var a, b := HashLeaves(sha, s), HashLeaves(sha, t);
    PaddedRoot(sha, a);
    PaddedRoot(sha, b);
    hide Slots, RootDigest, TreeInputs, Print0x, Utf8, ZeroRoot;
    PaddedDigests(sha, s);
    PaddedDigests(sha, t);
  }

  lemma SharedRootSamePadding(sha: Hash, s: seq<string>, t: seq<string>)
    requires s != [] && t != [] && Depth(|s|) == Depth(|t|) && StateRootText(sha, s) == StateRootText(sha, t)
    requires InjectiveOn(sha, RootInputs(sha, s) + RootInputs(sha, t))
    ensures Padded(s) == Padded(t)
  {
    var a, b := HashLeaves(sha, s), HashLeaves(sha, t);
    var inputs := RootInputs(sha, s) + RootInputs(sha, t);
    PaddedRoot(sha, a);
    PaddedRoot(sha, b);
    hide Slots, RootDigest, TreeInputs, Print0x, Utf8, ZeroRoot, Depth, InjectiveOn;
    PrintInjective(RootDigest(sha, a), RootDigest(sha, b));
    LevelBinds(sha, Padded(a), Padded(b), inputs);
    PaddedLeavesBind(sha, s, t, inputs);
  }

  lemma PaddedDigests(sha: Hash, s: seq<string>)
    requires s != []
    ensures Padded(HashLeaves(sha, s)) == HashLeaves(sha, Padded(s))
  {
    hide Slots, Utf8;
  }

  lemma PaddedLeavesBind(sha: Hash, s: seq<string>, t: seq<string>, inputs: set<seq<Byte>>)
    requires s != [] && t != [] && Padded(HashLeaves(sha, s)) == Padded(HashLeaves(sha, t))
    requires LeafInputs(s) <= inputs && LeafInputs(t) <= inputs && InjectiveOn(sha, inputs)
    ensures Padded(s) == Padded(t)
  {
    hide Slots, Utf8;
    forall k | 0 <= k < |Padded(s)|
      ensures |Padded(s)| == |Padded(t)| && Padded(s)[k] == Padded(t)[k]
    {
      var x, y := Padded(s)[k], Padded(t)[k];
      assert Padded(HashLeaves(sha, s))[k] == sha(Utf8(x)) && Padded(HashLeaves(sha, t))[k] == sha(Utf8(y));
      assert Utf8(x) in LeafInputs(s) && Utf8(y) in LeafInputs(t);
      Utf8Injective(x, y);
    }
    assert |Padded(HashLeaves(sha, s))| == |Padded(HashLeaves(sha, t))|;
  }

  // ---------------------------------------------------------------- proofs of other lengths

  /** A fold no longer than the tree started in the level that many steps below the root. */
  lemma {:induction false} FoldSoundAt(sha: Hash, current: Digest, path: Path, level: Level, inputs: set<seq<Byte>>)
    requires level != [] && |path| <= Depth(|level|)
    requires FoldProof(sha, current, path) == Some(RootDigest(sha, level))
    requires FoldInputs(sha, current, path) <= inputs && TreeInputs(sha, level) <= inputs
    requires InjectiveOn(sha, inputs)
    ensures current in Levels(sha, level)[Depth(|level|) - |path|]
    decreases |level|
  {
    TreeStart(sha, level);
    hide FoldProof, FoldInputs, RootDigest, TreeInputs, Levels, Depth;
    if |path| == Depth(|level|) {
      FoldSound(sha, current, path, level, inputs);
    } else {
      TreeStep(sha, level);
      LevelsStep(sha, level);
      FoldSoundAt(sha, current, path, NextLevel(sha, level), inputs);
    }
  }

  /** The first byte string of a fold shorter than the tree is one hashed inside the tree. */
  lemma {:induction false} ShortFold(sha: Hash, x: seq<Byte>, path: Path, level: Level, inputs: set<seq<Byte>>)
    requires level != [] && |path| < Depth(|level|)
    requires FoldProof(sha, sha(x), path) == Some(RootDigest(sha, level))
    requires x in inputs && FoldInputs(sha, sha(x), path) <= inputs && TreeInputs(sha, level) <= inputs
    requires InjectiveOn(sha, inputs)
    ensures x in TreeInputs(sha, level) && |x| == 64
    decreases |level|
  {
    var next := NextLevel(sha, level);
    TreeStep(sha, level);
    PairsAreInputs(sha, level);
    hide FoldProof, FoldInputs, RootDigest, TreeInputs;
    if |path| == Depth(|next|) {
      FoldSound(sha, sha(x), path, next, inputs);
      var i :| 0 <= i < |next| && next[i] == sha(x);
      assert x == PairAt(level, i);
    } else {
      ShortFold(sha, x, path, next, inputs);
    }
  }

  /** A fold longer than the tree hashes to a leaf some byte string with a digest inside. */
  lemma {:induction false} LongFold(sha: Hash, current: Digest, path: Path, level: Level, inputs: set<seq<Byte>>)
    returns (x: seq<Byte>)
    requires level != [] && |path| > Depth(|level|)
    requires FoldProof(sha, current, path) == Some(RootDigest(sha, level))
    requires FoldInputs(sha, current, path) <= inputs && TreeInputs(sha, level) <= inputs
    requires InjectiveOn(sha, inputs)
    ensures x in inputs && |x| >= 32 && sha(x) in level
    decreases |path|
  {
    x := Joined(current, HexDecode(Trim0x(path[0].0)).value, path[0].1);
    assert x in inputs && |x| >= 32;
    hide HexDecode, Trim0x, Joined, RootDigest, TreeInputs;
    if |path| == Depth(|level|) + 1 {
      FoldSound(sha, sha(x), path[1..], level, inputs);
    } else {
      x := LongFold(sha, sha(x), path[1..], level, inputs);
    }
  }

  /**
   What an accepted proof of any length means, unless two of the byte strings hashed collide: at
   the depth of the tree its text is a leaf; shorter, its text is the 64 bytes of an inner node;
   longer, some leaf has 32 bytes or more.
   */
  lemma AcceptedProofMeans(sha: Hash, proof: MerkleProof, leaves: seq<string>)
    requires leaves != [] && Accepts(sha, proof) && proof.root == StateRootText(sha, leaves)
    ensures Collision(sha, ProofInputs(sha, proof, leaves)) ||
      if |proof.path| == Depth(|leaves|) then proof.leaf in leaves
      else if |proof.path| < Depth(|leaves|) then
        Utf8(proof.leaf) in TreeInputs(sha, HashLeaves(sha, leaves)) && |Utf8(proof.leaf)| == 64
      else exists i :: 0 <= i < |leaves| && |Utf8(leaves[i])| >= 32
  {
    var inputs := ProofInputs(sha, proof, leaves);
    InjectiveUnlessCollision(sha, inputs);
    if !Collision(sha, inputs) {
      var level := HashLeaves(sha, leaves);
      var top := FoldProof(sha, sha(Utf8(proof.leaf)), proof.path).value;
      hide Print0x, FoldProof, RootDigest, FoldInputs, TreeInputs, Utf8, Depth, ZeroRoot, Collision, InjectiveOn;
      PrintInjective(top, RootDigest(sha, level));
      if |proof.path| == Depth(|leaves|) {
        AcceptedLeafKnown(sha, proof, leaves);
      } else if |proof.path| < Depth(|leaves|) {
        ShortFold(sha, Utf8(proof.leaf), proof.path, level, inputs);
      } else {
        var x := LongFold(sha, sha(Utf8(proof.leaf)), proof.path, level, inputs);
        LongLeaf(sha, leaves, x, inputs);
      }
    }
  }

  lemma LongLeaf(sha: Hash, leaves: seq<string>, x: seq<Byte>, inputs: set<seq<Byte>>)
    requires sha(x) in HashLeaves(sha, leaves) && x in inputs && |x| >= 32
    requires LeafInputs(leaves) <= inputs && InjectiveOn(sha, inputs)
    ensures exists i :: 0 <= i < |leaves| && |Utf8(leaves[i])| >= 32
  {
    hide Utf8;
    var i :| 0 <= i < |leaves| && HashLeaves(sha, leaves)[i] == sha(x);
    assert Utf8(leaves[i]) in LeafInputs(leaves);
  }

  /** So a checker need not know the depth when the text is not 64 bytes and all leaves are short. */
  lemma AcceptedLeafIsPresentAtAnyLength(sha: Hash, proof: MerkleProof, leaves: seq<string>)
    requires leaves != [] && Accepts(sha, proof) && proof.root == StateRootText(sha, leaves)
    requires |proof.path| < Depth(|leaves|) ==> |Utf8(proof.leaf)| != 64
    requires |proof.path| > Depth(|leaves|) ==> forall i :: 0 <= i < |leaves| ==> |Utf8(leaves[i])| < 32
    ensures proof.leaf in leaves || Collision(sha, ProofInputs(sha, proof, leaves))
  {
    hide Accepts, StateRootText, ProofInputs, Collision, Utf8, TreeInputs, Depth;
    AcceptedProofMeans(sha, proof, leaves);
  }

  /** Checking a generated path hashes nothing but what was hashed to build the tree. */
  lemma {:induction false} PathHashesTree(sha: Hash, level: Level, idx: nat)
    requires idx < |level|
    ensures FoldInputs(sha, level[idx], ProofPath(sha, level, idx)) <= TreeInputs(sha, level)
    decreases |level|
  {
    hide HexDecode, Trim0x;
    if |level| > 1 {
      var next, rest := NextLevel(sha, level), ProofPath(sha, NextLevel(sha, level), idx / 2);
      var sibling := SiblingAt(level, idx);
      assert ProofPath(sha, level, idx) == [(Print0x(sibling), idx % 2 == 0)] + rest;
      assert Joined(level[idx], sibling, idx % 2 == 0) == PairAt(level, idx / 2);
      hide Print0x, TreeInputs, ProofPath, FoldInputs, PairAt, Joined, SiblingAt;
      FoldInputsCons(sha, level[idx], sibling, idx % 2 == 0, rest);
      PairsAreInputs(sha, level);
      TreeStep(sha, level);
      PathHashesTree(sha, next, idx / 2);
    }
  }

  lemma FoldInputsCons(sha: Hash, current: Digest, sibling: Digest, first: bool, rest: Path)
    ensures var x := Joined(current, sibling, first);
      FoldInputs(sha, current, [(Print0x(sibling), first)] + rest) == {x} + FoldInputs(sha, sha(x), rest)
  {
    PrintedDigestReadsBack(sibling);
    hide Print0x, HexDecode, Trim0x, Joined;
    assert ([(Print0x(sibling), first)] + rest)[1..] == rest;
  }

  /**
   Lists whose trees differ in depth share a state root only if every leaf of the shallower one
   is the 64 bytes of an inner node of the deeper, or two of the byte strings hashed collide.
   */
  lemma RootsOfDifferentDepth(sha: Hash, s: seq<string>, t: seq<string>, i: nat)
    requires i < |s| && Depth(|s|) < Depth(|t|) && StateRootText(sha, s) == StateRootText(sha, t)
    ensures Collision(sha, RootInputs(sha, s) + RootInputs(sha, t)) ||
      (Utf8(s[i]) in TreeInputs(sha, HashLeaves(sha, t)) && |Utf8(s[i])| == 64)
  {
    var proof := ProofFor(sha, s, s[i]);
    var level, k := HashLeaves(sha, s), FirstIndex(s, s[i]);
    GeneratedProofsVerify(sha, s, s[i]);
    PathLength(sha, level, k);
    PathHashesTree(sha, level, k);
    assert Utf8(s[i]) in LeafInputs(s);
    hide Accepts, StateRootText, TreeInputs, FoldInputs, Utf8, Depth, LeafInputs, ProofPath, FirstIndex;
    AcceptedProofMeans(sha, proof, t);
    CollisionWithin(sha, ProofInputs(sha, proof, t), RootInputs(sha, s) + RootInputs(sha, t));
  }

  lemma CollisionWithin(sha: Hash, inputs: set<seq<Byte>>, more: set<seq<Byte>>)
    requires inputs <= more
    ensures Collision(sha, inputs) ==> Collision(sha, more)
  {
  }

  lemma {:induction false} PathLength(sha: Hash, level: Level, idx: nat)
    requires idx < |level|
    ensures |ProofPath(sha, level, idx)| == Depth(|level|)
    decreases |level|
  {
    hide Print0x, PairAt;
    if |level| > 1 {
      PathLength(sha, NextLevel(sha, level), idx / 2);
    }
  }

  /** Every byte string hashed inside the tree has a path, shorter than the tree, to the root. */
  lemma {:induction false} InnerPath(sha: Hash, x: seq<Byte>, level: Level) returns (path: Path)
    requires x in TreeInputs(sha, level)
    ensures |path| < Depth(|level|) && FoldProof(sha, sha(x), path) == Some(RootDigest(sha, level))
    decreases |level|
  {
    var next := NextLevel(sha, level);
    TreeStep(sha, level);
    if i :| 0 <= i < |next| && x == PairAt(level, i) {
      path := ProofPath(sha, next, i);
      PathFoldsToRoot(sha, next, i);
      PathLength(sha, next, i);
    } else {
      path := InnerPath(sha, x, next);
    }
  }

  /** Conversely every text with the bytes of an inner node has an accepted proof that is too short. */
  lemma InnerTextAccepted(sha: Hash, leaves: seq<string>, text: string) returns (proof: MerkleProof)
    requires Utf8(text) in TreeInputs(sha, HashLeaves(sha, leaves))
    ensures proof.leaf == text && proof.root == StateRootText(sha, leaves)
    ensures Accepts(sha, proof) && |proof.path| < Depth(|leaves|)
  {
    hide Utf8, FoldProof, RootDigest, Print0x, ZeroRoot;
    var path := InnerPath(sha, Utf8(text), HashLeaves(sha, leaves));
    proof := MerkleProof(text, path, StateRootText(sha, leaves));
  }

  /** Thirty-two copies of one byte. */
  function Flat(b: Byte): Digest {
    seq(32, _ => b)
  }

  /** A hash whose digests happen to be readable text. */
  function TextHash(x: seq<Byte>): Digest {
    if x == [97] then Flat(65) else if x == [98] then Flat(66) else Flat(67)
  }

  /**
   It does happen for a text that is no leaf: a hash without collisions among the inputs, two
   leaves, and the inside of their parent.
   */
  lemma ShortProofAccepted()
    ensures var leaves := ["a", "b"];
      var proof := MerkleProof(seq(32, _ => 'A') + seq(32, _ => 'B'), [], StateRootText(TextHash, leaves));
      && Accepts(TextHash, proof) && proof.leaf !in leaves
      && |proof.path| < Depth(|leaves|)
      && InjectiveOn(TextHash, ProofInputs(TextHash, proof, leaves))
  {
    var leaves := ["a", "b"];
    var text := seq(32, _ => 'A') + seq(32, _ => 'B');
    var proof := MerkleProof(text, [], StateRootText(TextHash, leaves));
    var level := HashLeaves(TextHash, leaves);
    var inside := Pair(Flat(65), Flat(66));
    SmallLeaves(text);
    assert level == [Flat(65), Flat(66)];
    SmallTree(level);
    hide Utf8, TreeInputs, Flat, RootDigest, NextLevel, ZeroRoot, Print0x;
    assert level == [Flat(65), Flat(66)];
    assert ProofInputs(TextHash, proof, leaves) == {inside, [97], [98]};
    FlatDigestsDiffer();
    assert Depth(2) == 1;
  }

  lemma FlatDigestsDiffer()
    ensures Flat(65) != Flat(66) && Flat(66) != Flat(67) && Flat(65) != Flat(67)
    ensures TextHash(Pair(Flat(65), Flat(66))) == Flat(67)
  {
    assert Flat(65)[0] == 65 && Flat(66)[0] == 66 && Flat(67)[0] == 67;
    assert |Pair(Flat(65), Flat(66))| == 64;
  }

  lemma SmallLeaves(text: string)
    requires text == seq(32, _ => 'A') + seq(32, _ => 'B')
    ensures Utf8("a") == [97] && Utf8("b") == [98]
    ensures Utf8(text) == Pair(Flat(65), Flat(66))
    ensures LeafInputs(["a", "b"]) == {[97], [98]}
  {
    AsciiBytes("a");
    AsciiBytes("b");
    AsciiBytes(text);
    hide Utf8;
    var leaves := ["a", "b"];
    assert Utf8("a") == [97] && Utf8("b") == [98];
    assert leaves[0] == "a" && leaves[1] == "b";
    assert Utf8(leaves[0]) in LeafInputs(leaves) && Utf8(leaves[1]) in LeafInputs(leaves);
  }

  lemma SmallTree(level: Level)
    requires level == [Flat(65), Flat(66)]
    ensures RootDigest(TextHash, level) == Flat(67)
    ensures TreeInputs(TextHash, level) == {Pair(Flat(65), Flat(66))}
  {
    FlatDigestsDiffer();
    hide Flat;
    var inside := Pair(Flat(65), Flat(66));
    assert PairAt(level, 0) == inside;
    var next := NextLevel(TextHash, level);
    assert next == [Flat(67)];
    assert TreeInputs(TextHash, next) == {};
    assert RootDigest(TextHash, next) == Flat(67);
  }
}
