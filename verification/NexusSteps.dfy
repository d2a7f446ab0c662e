/**
 The state tracker's methods as sequences of lock operations and of what they do in between to
 the shared fields, and what each method does as a whole: its effect on the leaves and its
 result, as a function of the leaves alone.
 */
module NexusSteps {
  import opened Bytes
  import opened MmrShape
  import opened MmrForest
  import opened MmrFoundation
  import opened MerkleTree
  import opened NexusState

  // ---------------------------------------------------------------- shared fields

  type Entry = (nat, Digest)

  /** The accumulator, and every node it has added since it was last emptied. */
  datatype MmrView = MmrView(peaks: seq<Digest>, size: nat, nodeCount: nat, added: seq<Entry>)

  datatype Fields = Fields(leaves: seq<string>, levels: seq<Level>, root: string, mmr: MmrView)

  function MmrOf(sha: Hash, leaves: seq<string>): MmrView {
    MmrView(Peaks(sha, Encoded(leaves)), |leaves|, NodeCount(|leaves|), AllEntries(sha, leaves))
  }

  /** The whole log of a list of leaves, with positions. */
  function AllEntries(sha: Hash, leaves: seq<string>): seq<Entry> {
    Entries(Log(sha, Encoded(leaves)), 0)
  }

  /** The accumulator after writing one node. */
  function AddNode(v: MmrView, hash: Digest): MmrView {
    v.(nodeCount := v.nodeCount + 1, added := v.added + [(v.nodeCount, hash)])
  }

  /** The fields of a list of leaves: tree, root and MMR are those of the list. */
  function SettledFields(sha: Hash, leaves: seq<string>): Fields {
    Fields(leaves, TreeLevels(sha, leaves), StateRootText(sha, leaves), MmrOf(sha, leaves))
  }

  function EmptyView(): MmrView {
    MmrView([], 0, 0, [])
  }

  /** The carry of one append, on values. */
  function Carry(sha: Hash, v: MmrView, pos: nat, hash: Digest): MmrView
    decreases pos
  {
    if pos % 2 == 1 && |v.peaks| > 0 then
      var last := |v.peaks| - 1;
      var merged := HashPair(sha, v.peaks[last], hash);
      Carry(sha, AddNode(v.(peaks := v.peaks[..last]), merged), pos / 2, merged)
    else
      v.(peaks := v.peaks + [hash], size := v.size + 1)
  }

  function AddOne(sha: Hash, v: MmrView, leaf: Leaf): MmrView {
    Carry(sha, AddNode(v, sha(leaf)), v.size, sha(leaf))
  }

  function AddAll(sha: Hash, v: MmrView, texts: seq<string>): MmrView
    decreases |texts|
  {
    if texts == [] then v else AddAll(sha, AddOne(sha, v, Utf8(texts[0])), texts[1..])
  }

  /** The nodes a batch adds are the ones it returns. */
  function NodesAdded(sha: Hash, v: MmrView, texts: seq<string>): seq<Entry> {
    AddAllGrows(sha, v, texts);
    AddAll(sha, v, texts).added[|v.added|..]
  }

  lemma {:induction false} CarryGrows(sha: Hash, v: MmrView, pos: nat, hash: Digest)
    ensures v.added <= Carry(sha, v, pos, hash).added
    decreases pos
  {
    if pos % 2 == 1 && |v.peaks| > 0 {
      var last := |v.peaks| - 1;
      var merged := HashPair(sha, v.peaks[last], hash);
      CarryGrows(sha, AddNode(v.(peaks := v.peaks[..last]), merged), pos / 2, merged);
    }
  }

  lemma {:induction false} AddAllGrows(sha: Hash, v: MmrView, texts: seq<string>)
    ensures v.added <= AddAll(sha, v, texts).added
    decreases |texts|
  {
    hide Utf8, Carry;
    if texts != [] {
      var leaf := Utf8(texts[0]);
      CarryGrows(sha, AddNode(v, sha(leaf)), v.size, sha(leaf));
      AddAllGrows(sha, AddOne(sha, v, leaf), texts[1..]);
    }
  }

  /** Siblings read off the stored levels. */
  function PathOf(levels: seq<Level>, idx: nat): Path {
    if |levels| <= 1 || idx >= |levels[0]| then []
    else [(Print0x(SiblingAt(levels[0], idx)), idx % 2 == 0)] + PathOf(levels[1..], idx / 2)
  }

  // ---------------------------------------------------------------- programs

  datatype Lock = LeavesLock | LevelsLock | MmrLock | RootLock

  datatype Instr =
    | Acquire(l: Lock)
    | Release(l: Lock)
    | Extend(texts: seq<string>)
    | Replace(texts: seq<string>)
    | PutRoot
    | PutLevels
    | AppendMmr(texts: seq<string>)
    | ResetMmr(texts: seq<string>)
    | EmitProof(key: string)
    | ReadLengths
    | FindLeaf(key: string)
    | LeafAt(index: nat)
    | FetchRoot
    | FetchMmr

  /** Operations in turn, or a look-up that goes on one way or the other. */
  datatype Code =
    | Done
    | Do(op: Instr, rest: Code)
    | LookUp(key: string, found: Code, missed: Code)

  datatype Call =
    | UpdateBatch(texts: seq<string>)
    | SetInitial(texts: seq<string>, logged: bool)
    | GenerateProof(key: string)
    | Metadata
    | LeafIndex(key: string)
    | LeafByIndex(index: nat)
    | ReadRoot
    | ReadMmr

  function Program(call: Call): Code {
    match call
    case UpdateBatch(texts) =>
      Do(Acquire(LeavesLock), Do(Extend(texts), Rebuild(Do(Acquire(MmrLock), Do(AppendMmr(texts), CloseMmr())))))
    case SetInitial(texts, logged) =>
      Do(Acquire(LeavesLock), Do(Replace(texts),
        Rebuild(Do(Acquire(MmrLock), Do(ResetMmr(texts), CloseReset(logged))))))
    case GenerateProof(key) =>
      Do(Acquire(LeavesLock), Do(Acquire(LevelsLock), LookUp(key, Found(key), Missed())))
    case Metadata => Do(Acquire(LeavesLock), Do(Acquire(MmrLock), Do(ReadLengths, CloseMmr())))
    case LeafIndex(key) => Do(Acquire(LeavesLock), Do(FindLeaf(key), Do(Release(LeavesLock), Done)))
    case LeafByIndex(index) => Do(Acquire(LeavesLock), Do(LeafAt(index), Do(Release(LeavesLock), Done)))
    case ReadRoot => Do(Acquire(RootLock), Do(FetchRoot, Do(Release(RootLock), Done)))
    case ReadMmr => Do(Acquire(MmrLock), Do(FetchMmr, Do(Release(MmrLock), Done)))
  }

  /** Root and levels are written one after the other, never under both locks. */
  function Rebuild(rest: Code): Code {
    Do(Acquire(RootLock), Do(PutRoot, Do(Release(RootLock),
      Do(Acquire(LevelsLock), Do(PutLevels, Do(Release(LevelsLock), rest))))))
  }

  function CloseMmr(): Code {
    Do(Release(MmrLock), Do(Release(LeavesLock), Done))
  }

  /** With logging on, the root is read once more before the locks go. */
  function CloseReset(logged: bool): Code {
    if logged then Do(Acquire(RootLock), Do(Release(RootLock), CloseMmr())) else CloseMmr()
  }

  /** After a successful look-up: read the root while still holding leaves and levels. */
  function Found(key: string): Code {
    Do(Acquire(RootLock), Do(EmitProof(key), Do(Release(RootLock), Missed())))
  }

  function Missed(): Code {
    Do(Release(LevelsLock), Do(Release(LeavesLock), Done))
  }

  // ---------------------------------------------------------------- what operations do

  /** What a method returns. */
  datatype Result =
    | NoResult
    | Nodes(entries: seq<Entry>)
    | Proof(proof: MerkleProof)
    | Lengths(leaves: nat, nodes: nat)
    | Index(index: Option<nat>)
    | LeafText(text: Option<string>)
    | Root(root: string)
    | MmrState(peaks: seq<Digest>, size: nat)

  /** What a thread keeps between its operations. */
  datatype Local = Local(path: Path, result: Result)

  function NoLocal(): Local {
    Local([], NoResult)
  }

  /** What an operation does to the shared fields. */
  function Effect(sha: Hash, d: Fields, op: Instr): Fields {
    match op
    case Extend(texts) => d.(leaves := d.leaves + texts)
    case Replace(texts) => d.(leaves := texts)
    case PutRoot => d.(root := StateRootText(sha, d.leaves))
    case PutLevels => d.(levels := TreeLevels(sha, d.leaves))
    case AppendMmr(texts) => d.(mmr := AddAll(sha, d.mmr, texts))
    case ResetMmr(texts) => d.(mmr := AddAll(sha, EmptyView(), texts))
    case _ => d
  }

  function IndexOf(leaves: seq<string>, key: string): Option<nat> {
    if key in leaves then Some(FirstIndex(leaves, key)) else None
  }

  /** What the thread learns from it. */
  function Note(sha: Hash, d: Fields, op: Instr, local: Local): Local {
    match op
    case AppendMmr(texts) => local.(result := Nodes(NodesAdded(sha, d.mmr, texts)))
    case EmitProof(key) => local.(result := Proof(MerkleProof(key, local.path, d.root)))
    case ReadLengths => local.(result := Lengths(|d.leaves|, d.mmr.nodeCount))
    case FindLeaf(key) => local.(result := Index(IndexOf(d.leaves, key)))
    case LeafAt(i) => local.(result := LeafText(if i < |d.leaves| then Some(d.leaves[i]) else None))
    case FetchRoot => local.(result := Root(d.root))
    case FetchMmr => local.(result := MmrState(d.mmr.peaks, d.mmr.size))
    case _ => local
  }

  predicate Finds(d: Fields, key: string) {
    key in d.leaves && d.levels != []
  }

  function WithPath(d: Fields, key: string, local: Local): Local
    requires Finds(d, key)
  {
    local.(path := PathOf(d.levels, FirstIndex(d.leaves, key)))
  }

  /** Fields and result once the thread has run the rest of its operations alone. */
  function RunToEnd(sha: Hash, d: Fields, code: Code, local: Local): (Fields, Result)
    decreases code
  {
    match code
    case Done => (d, local.result)
    case Do(op, rest) => RunToEnd(sha, Effect(sha, d, op), rest, Note(sha, d, op, local))
    case LookUp(key, found, missed) =>
      if Finds(d, key) then RunToEnd(sha, d, found, WithPath(d, key, local)) else RunToEnd(sha, d, missed, local)
  }

  // ---------------------------------------------------------------- what methods do

  /** The leaves after a method. */
  function LeavesAfter(leaves: seq<string>, call: Call): seq<string> {
    match call
    case UpdateBatch(texts) => leaves + texts
    case SetInitial(texts, _) => texts
    case _ => leaves
  }

  /** Its result. */
  function ResultOf(sha: Hash, leaves: seq<string>, call: Call): Result {
    match call
    case UpdateBatch(texts) => Nodes(EntriesFrom(sha, leaves + texts, |leaves|))
    case SetInitial(_, _) => NoResult
    case GenerateProof(key) => if key in leaves then Proof(ProofFor(sha, leaves, key)) else NoResult
    case Metadata => Lengths(|leaves|, NodeCount(|leaves|))
    case LeafIndex(key) => Index(IndexOf(leaves, key))
    case LeafByIndex(i) => LeafText(if i < |leaves| then Some(leaves[i]) else None)
    case ReadRoot => Root(StateRootText(sha, leaves))
    case ReadMmr => MmrState(Peaks(sha, Encoded(leaves)), |leaves|)
  }

  /** The operations of a method, run on the fields of any leaves, are the method. */
  lemma CallRight(sha: Hash, leaves: seq<string>, call: Call)
    ensures RunToEnd(sha, SettledFields(sha, leaves), Program(call), NoLocal())
      == (SettledFields(sha, LeavesAfter(leaves, call)), ResultOf(sha, leaves, call))
  {
    match call
    case UpdateBatch(texts) => BatchRight(sha, leaves, texts);
    case SetInitial(texts, logged) => ResetRight(sha, leaves, texts, logged);
    case GenerateProof(key) => ProofRight(sha, leaves, key);
    case _ => ReadersRight(sha, leaves, call);
  }

  lemma RunStep(sha: Hash, d: Fields, op: Instr, rest: Code, local: Local)
    ensures RunToEnd(sha, d, Do(op, rest), local) == RunToEnd(sha, Effect(sha, d, op), rest, Note(sha, d, op, local))
  {
  }

  lemma RebuildRuns(sha: Hash, d: Fields, rest: Code, local: Local)
    ensures RunToEnd(sha, d, Rebuild(rest), local)
      == RunToEnd(sha, d.(root := StateRootText(sha, d.leaves), levels := TreeLevels(sha, d.leaves)), rest, local)
  {
    hide StateRootText, TreeLevels, RunToEnd;
    var d1 := d.(root := StateRootText(sha, d.leaves));
    var d2 := d1.(levels := TreeLevels(sha, d.leaves));
    var fifth := Do(Release(LevelsLock), rest);
    var fourth := Do(PutLevels, fifth);
    var third := Do(Acquire(LevelsLock), fourth);
    var second := Do(Release(RootLock), third);
    RunStep(sha, d, Acquire(RootLock), Do(PutRoot, second), local);
    RunStep(sha, d, PutRoot, second, local);
    RunStep(sha, d1, Release(RootLock), third, local);
    RunStep(sha, d1, Acquire(LevelsLock), fourth, local);
    RunStep(sha, d1, PutLevels, fifth, local);
    RunStep(sha, d2, Release(LevelsLock), rest, local);
  }

  lemma ClosesRun(sha: Hash, d: Fields, local: Local, logged: bool)
    ensures RunToEnd(sha, d, CloseMmr(), local) == (d, local.result)
    ensures RunToEnd(sha, d, CloseReset(logged), local) == (d, local.result)
    ensures RunToEnd(sha, d, Missed(), local) == (d, local.result)
  {
    assert RunToEnd(sha, d, Do(Release(LeavesLock), Done), local) == (d, local.result);
    assert RunToEnd(sha, d, CloseMmr(), local) == (d, local.result);
    assert RunToEnd(sha, d, Do(Release(RootLock), CloseMmr()), local) == (d, local.result);
  }

  lemma BatchRight(sha: Hash, leaves: seq<string>, texts: seq<string>)
    ensures RunToEnd(sha, SettledFields(sha, leaves), Program(UpdateBatch(texts)), NoLocal())
      == (SettledFields(sha, leaves + texts), Nodes(EntriesFrom(sha, leaves + texts, |leaves|)))
  {
    hide StateRootText, TreeLevels, AddAll, MmrOf, EntriesFrom;
    var d, l := SettledFields(sha, leaves), leaves + texts;
    var tail := Do(Acquire(MmrLock), Do(AppendMmr(texts), CloseMmr()));
    var d1 := d.(leaves := l);
    assert RunToEnd(sha, d, Program(UpdateBatch(texts)), NoLocal()) == RunToEnd(sha, d1, Rebuild(tail), NoLocal());
    RebuildRuns(sha, d1, tail, NoLocal());
    AddAllRight(sha, leaves, texts);
    NodesAddedRight(sha, leaves, texts);
    ClosesRun(sha, SettledFields(sha, l), NoLocal().(result := Nodes(EntriesFrom(sha, l, |leaves|))), false);
  }

  lemma NodesAddedRight(sha: Hash, leaves: seq<string>, texts: seq<string>)
    ensures NodesAdded(sha, MmrOf(sha, leaves), texts) == EntriesFrom(sha, leaves + texts, |leaves|)
  {
    AddAllRight(sha, leaves, texts);
    AddAllGrows(sha, MmrOf(sha, leaves), texts);
    hide AddAll, Log, Peaks, NodeCount, Utf8;
    assert (leaves + texts)[..|leaves|] == leaves;
  }

  lemma ResetRight(sha: Hash, leaves: seq<string>, texts: seq<string>, logged: bool)
    ensures RunToEnd(sha, SettledFields(sha, leaves), Program(SetInitial(texts, logged)), NoLocal())
      == (SettledFields(sha, texts), NoResult)
  {
    hide StateRootText, TreeLevels, AddAll, MmrOf, CloseReset;
    var d := SettledFields(sha, leaves);
    var tail := Do(Acquire(MmrLock), Do(ResetMmr(texts), CloseReset(logged)));
    var d1 := d.(leaves := texts);
    var program := Program(SetInitial(texts, logged));
    assert RunToEnd(sha, d, program, NoLocal()) == RunToEnd(sha, d1, Rebuild(tail), NoLocal());
    RebuildRuns(sha, d1, tail, NoLocal());
    EmptyMmr(sha);
    AddAllRight(sha, [], texts);
    assert [] + texts == texts;
    ClosesRun(sha, SettledFields(sha, texts), NoLocal(), logged);
  }

  lemma EmptyMmr(sha: Hash)
    ensures MmrOf(sha, []) == EmptyView()
  {
  }

  lemma ProofRight(sha: Hash, leaves: seq<string>, key: string)
    ensures RunToEnd(sha, SettledFields(sha, leaves), Program(GenerateProof(key)), NoLocal())
      == (SettledFields(sha, leaves), ResultOf(sha, leaves, GenerateProof(key)))
  {
    hide StateRootText, MmrOf, Levels, HashLeaves, ProofPath, PathOf, FirstIndex;
    var d := SettledFields(sha, leaves);
    var look := LookUp(key, Found(key), Missed());
    assert RunToEnd(sha, d, Do(Acquire(LevelsLock), look), NoLocal()) == RunToEnd(sha, d, look, NoLocal());
    assert RunToEnd(sha, d, Program(GenerateProof(key)), NoLocal()) == RunToEnd(sha, d, look, NoLocal());
    if key in leaves {
      LookUpGivesPath(sha, leaves, key);
      var local := WithPath(d, key, NoLocal());
      var emitted := local.(result := Proof(ProofFor(sha, leaves, key)));
      ClosesRun(sha, d, emitted, false);
      assert RunToEnd(sha, d, Do(Release(RootLock), Missed()), emitted) == (d, emitted.result);
      assert RunToEnd(sha, d, Do(EmitProof(key), Do(Release(RootLock), Missed())), local) == (d, emitted.result);
      assert RunToEnd(sha, d, look, NoLocal()) == RunToEnd(sha, d, Found(key), local) == (d, emitted.result);
    } else {
      ClosesRun(sha, d, NoLocal(), false);
    }
  }

  lemma LookUpGivesPath(sha: Hash, leaves: seq<string>, key: string)
    requires key in leaves
    ensures Finds(SettledFields(sha, leaves), key)
    ensures var i := FirstIndex(leaves, key);
      PathOf(TreeLevels(sha, leaves), i) == ProofPath(sha, HashLeaves(sha, leaves), i)
  {
    hide Levels, PathOf, ProofPath, StateRootText, MmrOf;
    PathOfRight(sha, HashLeaves(sha, leaves), FirstIndex(leaves, key));
  }

  lemma ReadersRight(sha: Hash, leaves: seq<string>, call: Call)
    requires !call.UpdateBatch? && !call.SetInitial? && !call.GenerateProof?
    ensures RunToEnd(sha, SettledFields(sha, leaves), Program(call), NoLocal())
      == (SettledFields(sha, leaves), ResultOf(sha, leaves, call))
  {
    hide StateRootText, TreeLevels, Peaks, AllEntries, NodeCount, IndexOf;
    var d := SettledFields(sha, leaves);
    var noted := NoLocal().(result := ResultOf(sha, leaves, call));
    ClosesRun(sha, d, noted, false);
    match call
    case Metadata =>
      assert RunToEnd(sha, d, Do(ReadLengths, CloseMmr()), NoLocal()) == (d, noted.result);
      assert RunToEnd(sha, d, Do(Acquire(MmrLock), Do(ReadLengths, CloseMmr())), NoLocal()) == (d, noted.result);
    case LeafIndex(key) =>
      assert RunToEnd(sha, d, Do(FindLeaf(key), Do(Release(LeavesLock), Done)), NoLocal()) == (d, noted.result);
    case LeafByIndex(i) =>
      assert RunToEnd(sha, d, Do(LeafAt(i), Do(Release(LeavesLock), Done)), NoLocal()) == (d, noted.result);
    case ReadRoot =>
      assert RunToEnd(sha, d, Do(Release(RootLock), Done), noted) == (d, noted.result);
      assert RunToEnd(sha, d, Do(FetchRoot, Do(Release(RootLock), Done)), NoLocal()) == (d, noted.result);
    case ReadMmr =>
      assert RunToEnd(sha, d, Do(Release(MmrLock), Done), noted) == (d, noted.result);
      assert RunToEnd(sha, d, Do(FetchMmr, Do(Release(MmrLock), Done)), NoLocal()) == (d, noted.result);
  }

  // ---------------------------------------------------------------- appending on values

  /** Digests numbered from a position on. */
  function NumberedFrom(start: nat, ds: seq<Digest>): (es: seq<Entry>)
    ensures |es| == |ds| && forall k :: 0 <= k < |ds| ==> es[k] == (start + k, ds[k])
  {
    seq(|ds|, k requires 0 <= k < |ds| => (start + k, ds[k]))
  }

  /** The accumulator in the middle of the carry, with `written` and `hash` added so far. */
  ghost predicate MidCarry(sha: Hash, leaves: seq<Leaf>, hash: Digest, v: MmrView, written: seq<Digest>) {
    && v.size == |leaves| && v.nodeCount == NodeCount(|leaves|) + |written| + 1
    && v.added == Entries(Log(sha, leaves), 0) + NumberedFrom(NodeCount(|leaves|), written + [hash])
  }

  lemma MidCarryNext(sha: Hash, leaves: seq<Leaf>, hash: Digest, v: MmrView, written: seq<Digest>, merged: Digest)
    requires MidCarry(sha, leaves, hash, v, written)
    ensures MidCarry(sha, leaves, merged, AddNode(v, merged), written + [hash])
  {
    hide Log, NodeCount;
    var ds := written + [hash];
    assert NumberedFrom(NodeCount(|leaves|), ds + [merged])
      == NumberedFrom(NodeCount(|leaves|), ds) + [(NodeCount(|leaves|) + |ds|, merged)];
  }

  lemma MidCarryEnd(sha: Hash, leaves: seq<Leaf>, s: seq<Leaf>, hash: Digest, v: MmrView, written: seq<Digest>)
    requires MidCarry(sha, leaves, hash, v, written)
    requires Log(sha, s) == Log(sha, leaves) + (written + [hash])
    requires |Log(sha, leaves)| == NodeCount(|leaves|) && |Log(sha, s)| == NodeCount(|leaves| + 1)
    ensures v.added == Entries(Log(sha, s), 0) && v.nodeCount == NodeCount(|leaves| + 1)
  {
    hide Log, NodeCount;
    assert Entries(Log(sha, s), 0)
      == Entries(Log(sha, leaves), 0) + NumberedFrom(NodeCount(|leaves|), written + [hash]);
  }

  lemma {:induction false} CarryRight(sha: Hash, leaves: seq<Leaf>, leaf: Leaf, h: nat, pos: nat, hash: Digest,
                                      v: MmrView, written: seq<Digest>)
    requires Carrying(sha, leaves + [leaf], |leaves|, h, pos, hash, v.peaks, written)
    requires MidCarry(sha, leaves, hash, v, written)
    ensures var s := leaves + [leaf];
      Carry(sha, v, pos, hash) == MmrView(Peaks(sha, s), |s|, NodeCount(|s|), Entries(Log(sha, s), 0))
    decreases pos
  {
    hide Carrying, NodeCount, Peaks, Log, Entries, NumberedFrom;
    if pos % 2 == 1 {
      CarryStep(sha, leaves + [leaf], |leaves|, h, pos, hash, v.peaks, written);
      var last := |v.peaks| - 1;
      var merged := HashPair(sha, v.peaks[last], hash);
      MidCarryNext(sha, leaves, hash, v, written, merged);
      var v' := AddNode(v.(peaks := v.peaks[..last]), merged);
      CarryRight(sha, leaves, leaf, h + 1, pos / 2, merged, v', written + [hash]);
    } else {
      CarryEnd(sha, leaves, leaf, h, pos, hash, v.peaks, written);
      MidCarryEnd(sha, leaves, leaves + [leaf], hash, v, written);
    }
  }

  lemma AddOneRight(sha: Hash, leaves: seq<string>, text: string)
    ensures AddOne(sha, MmrOf(sha, leaves), Utf8(text)) == MmrOf(sha, leaves + [text])
  {
    hide Utf8, NodeCount, Peaks, Carry, Carrying, Log;
    var leaf := Utf8(text);
    CarryStart(sha, Encoded(leaves), leaf);
    var v := AddNode(MmrOf(sha, leaves), sha(leaf));
    assert NumberedFrom(NodeCount(|leaves|), [] + [sha(leaf)]) == [(NodeCount(|leaves|), sha(leaf))];
    CarryRight(sha, Encoded(leaves), leaf, 0, |leaves|, sha(leaf), v, []);
    assert Encoded(leaves + [text]) == Encoded(leaves) + [leaf];
  }

  lemma AddAllUnfolds(sha: Hash, v: MmrView, texts: seq<string>)
    ensures AddAll(sha, v, texts) == if texts == [] then v else AddAll(sha, AddOne(sha, v, Utf8(texts[0])), texts[1..])
  {
    hide AddOne, Utf8;
  }

  /** The append on values is right, one text or many. */
  lemma {:induction false} AddAllRight(sha: Hash, leaves: seq<string>, texts: seq<string>)
    ensures AddAll(sha, MmrOf(sha, leaves), texts) == MmrOf(sha, leaves + texts)
    decreases |texts|
  {
    hide Utf8, MmrOf, AddOne, AddAll;
    AddAllUnfolds(sha, MmrOf(sha, leaves), texts);
    if texts == [] {
      assert leaves + texts == leaves;
    } else {
      var next := leaves + [texts[0]];
      AddOneRight(sha, leaves, texts[0]);
      AddAllRight(sha, next, texts[1..]);
      assert next + texts[1..] == leaves + texts;
    }
  }

  lemma {:induction false} PathOfRight(sha: Hash, level: Level, idx: nat)
    requires idx < |level|
    ensures PathOf(Levels(sha, level), idx) == ProofPath(sha, level, idx)
    decreases |level|
  {
    hide Print0x, PairAt;
    if |level| > 1 {
      PathOfRight(sha, NextLevel(sha, level), idx / 2);
      assert Levels(sha, level)[1..] == Levels(sha, NextLevel(sha, level));
    } else {
      assert |Levels(sha, level)| == 1;
    }
  }
}
