# Conxian Nexus: verified model

A Dafny model of the parts of the Conxian Nexus service whose correctness spans several
functions or whole runs, with proofs of what those parts promise.

- **State commitments** (`src/state/mod.rs`): the append-only Merkle Mountain Range (MMR), the
  rebuilt binary Merkle tree, both sibling-path algorithms, proof generation and checking, and
  the locks around them. Modules `Binary`, `Bytes`, `MmrShape`, `MmrForest`, `MmrFoundation`,
  `MmrPaths`, `MmrProofs`, `MerkleTree`, `MerkleLimits`, `RootLaws`, `NexusState`, `NexusSteps`,
  `NexusLocks`, `NexusRuns`.
- **Metrics counts cache** (`src/api/grpc.rs`): double-checked refresh by any number of
  interleaved callers. Module `CountsCache`.
- **ERP attestations** (`src/api/erp.rs`): the signed canonical text, the time checks and the
  nonce store that stops replays. Modules `SignedText`, `ErpText`, `ErpReplay`,
  `ErpAcceptance`, `ErpKeys`.
- **Kwil payloads** (`src/storage/kwil.rs`): the five signed texts. Module `KwilText`.
- **Exchange rates** (`src/oracle/aggregator.rs`): outlier rejection, weighted mean and
  confidence. Modules `Oracle`, `OracleLaws`.
- **Quota and grace period** (`src/api/billing/mod.rs`): modules `Billing` (one request at a
  time) and `BillingRuns` (interleaved store commands).
- **Lightning recovery** (`src/executor/lightning.rs`, `src/orchestrator.rs`): module `Lightning`.

How the model is set up:

- SHA-256 is a parameter: every statement holds for every function from byte strings to 32
  bytes. Binding and soundness say: the conclusion holds, or two of the finitely many byte
  strings hashed in the situation at hand collide (`Collision`), naming those strings. The MAC check is a parameter too.
- An MMR node is named by its height and its index at that height. After n appends the nodes
  present are the complete ones, and the peaks are one perfect tree for each set bit of n, high
  to low. `NodeDigest`, `Peaks` and `Log` define digests, peaks and the write-once node log
  directly from the list of leaves; the accumulator is proved to compute them.
- Words are 64 bits. Checked operations fail as in the source; unchecked ones are proved not to
  overflow below 2^63 leaves, and wrap beyond. The metadata function succeeds for every leaf count below 2^63 and
  fails at exactly 2^63.
- No build profile enables overflow checks, so release builds wrap. Attestation time
  differences, MMR positions and shifts, and the Lightning retry counter are modelled with the wrap.
- Source code that updates state in place is modelled by classes (`Mmr`, `Tracker`,
  `NonceStore`, `KeyRecord`, `PaymentIntent`, `PaymentStore`) and loops by methods with
  invariants; each is proved against a function or predicate on values, about which the
  lemmas are stated. Concurrent behaviour is a state machine whose runs interleave single
  lock operations, store commands or awaits.
- Clocks, random rolls, request outcomes and store failures are parameters.

Where code and expectation differ, the code is modelled, an input shows the difference and the
exact condition is proved:

- `get_mmr_node_height` is right only at positions 2^k - 2 (`GetMmrNodeHeight`, `NodeHeightExact`),
  `get_mmr_node_pos` up to leaf 2^63 and `get_mmr_peaks` below 2^63 leaves.
- `set_mmr_state` keeps the state consistent only with the current peaks and size (`SetMmrState`).
- A Merkle proof shorter than the tree can be accepted for a text that is no leaf
  (`ShortProofAccepted`), exactly for texts with the bytes of an inner node
  (`AcceptedProofMeans`, `InnerTextAccepted`).
- An attestation can be accepted again in the second it expires (`ExpirySecondReplays`); which
  attempts of a run are accepted is `AcceptedIff`.
- A wrapped lifetime escapes the nonce bound (`WrappedLifetimeAccepted`, `TtlBoundedIff`).
- Replay keys of different nonces can coincide (`BarsCanShareKey`), exactly when the hashed text
  can be cut at another pair of bars (`SharesKeyIff`).
- A negative weighted sum rejects nothing and turns the confidence above 1 unless all rates agree
  (`NegativeRatesOverconfident`, `ConfidenceAtMostOneIff`).
- A failed read restarts the grace period (`FailedReadReopens`, `StartReplacedIff`), and so can a
  race (`InterleavingMovesStart`, `StartCanMoveIff`).
- The retry counter passes 3 when outcomes are not recorded (`RetriesGrow`, `RetryBoundIff`).
- An audit can overwrite a payment recorded as succeeded after the rows were selected
  (`LateWriteUndoesSuccess`, `LateWriteValidIff`).

## Model

| member | source | states |
|---|---|---|
| MmrShape.PeaksByBits | src/state/mod.rs:412-441 | There is one peak for each set bit of the leaf count, in strictly falling height |
| MmrShape.PeaksArePeaks | src/state/mod.rs:412-441 | Every listed peak is a complete perfect tree that no larger complete tree contains |
| MmrShape.PeakListed | src/state/mod.rs:412-441 | Every such maximal tree is listed |
| MmrShape.PeaksTile | src/state/mod.rs:312-325 | The peaks' subtrees tile the positions 0 to 2n - popcount(n) without gap or overlap |
| MmrShape.PosInUse | src/state/mod.rs:203-266 | A node's position is below the node count exactly when all its leaves have been appended |
| MmrShape.PosInjective | src/state/mod.rs:412-441 | No two nodes share a position |
| MmrShape.PosCovered | src/state/mod.rs:412-441 | Every position below the node count belongs to a complete node |
| MmrShape.FamilyPositions | src/state/mod.rs:238-259 | A sibling is 2^(h+1) - 1 positions away, to the left of a right child and to the right of a left one, and the parent follows the right child |
| MmrShape.DescendantRange | src/state/mod.rs:332-360 | The descendants of a node lie in the span from its subtree's start to its own position |
| MmrShape.SpanHoldsDescendants | src/state/mod.rs:332-360 | Conversely every node with a position in that span is a descendant, or the node itself |
| MmrShape.PeakAbove | src/state/mod.rs:234-263 | A node lies under at most one peak |
| MmrForest.DigestStable | src/state/mod.rs:412-441 | The digest of a complete node does not depend on later leaves |
| MmrForest.LogLength | src/state/mod.rs:412-441 | After n appends the log has 2n - popcount(n) entries |
| MmrForest.LogAt | src/state/mod.rs:65-77 | The log holds every complete node's digest at that node's position |
| MmrForest.LogGrows | src/state/mod.rs:65-77 | Later appends never change a written position |
| MmrForest.LogCovers | src/state/mod.rs:412-441 | A position is written exactly when some complete node sits there |
| MmrForest.PeaksInLog | src/state/mod.rs:312-325 | Peak k of the accumulator is the log entry at the k-th computed peak position |
| MmrFoundation.Mmr.constructor | src/state/mod.rs:404-410 | A new accumulator is the one of the empty list |
| MmrFoundation.Mmr.AddLeaf | src/state/mod.rs:412-441 | From the state of a list to the state of the list with one more leaf: peaks, size and node count are those of the binary digits, the popped peak always exists, the counter fits, and the nodes returned are exactly the new log entries with their positions |
| MmrFoundation.Mmr.GetRoot | src/state/mod.rs:443-458 | The printed root is the bagging of the list's peaks, or zeros for the empty list |
| MmrFoundation.CarryStep | src/state/mod.rs:424-436 | A set bit means there is a peak to pop, and merging keeps the loop's relation to the final peaks and log |
| MmrFoundation.CarryEnd | src/state/mod.rs:424-440 | A clear bit ends the carry with the peaks and log of the longer list |
| MmrShape.CounterFits | src/state/mod.rs:418-433 | Up to 2^63 leaves the node counter fits in 64 bits |
| MmrFoundation.PeaksCarryOver | src/state/mod.rs:412-441 | Old peaks keep their digests when leaves are appended |
| MmrPaths.ClimbStepRight | src/state/mod.rs:237-263 | One round of the bottom-up loop stops exactly at a peak, otherwise finds the sibling and parent positions, and fails only at the root of 2^63 leaves |
| MmrPaths.ClimbToPeak | src/state/mod.rs:203-266 | For every leaf of a range below 2^63 leaves the loop ends at the peak and returns the leaf's position and the positions of the siblings on its path; out of range, and at exactly 2^63 leaves, nothing |
| MmrPaths.GetMmrNodePos | src/state/mod.rs:293-295 | For every word the result is the leaf's position up to the word size, and the position itself exactly up to leaf 2^63 |
| MmrPaths.GetMmrNodeHeight | src/state/mod.rs:298-309 | For every word: the answer is the h with 2^(h+1) - h - 2 <= pos < 2^(h+2) - h - 3, except 64 or more for the last 65 positions, and it is a node's height exactly at roots of trees that start at position 0, up to height 62 |
| MmrPaths.NodeHeightExact | src/state/mod.rs:298-309 | An answer in those bounds is the node's height exactly when the position is 2^k - 2 |
| MmrPaths.GetMmrPeaks | src/state/mod.rs:312-325 | The positions returned are those of the peaks, high to low, exactly for fewer than 2^63 leaves; from there on the first is misplaced at 2^64 - 1 and the others are those of the rest |
| MmrPaths.FirstPeakAfter | src/state/mod.rs:332-344 | The first peak at or after a node's position is the peak above that node |
| MmrPaths.DescentStep | src/state/mod.rs:347-360 | Comparing with the left child's position takes the descent to the child above the target, the other child being its sibling |
| MmrPaths.DescentHeight | src/state/mod.rs:347-349 | Every height computed in the descent is asked at the root of a tree starting at offset 0, where it is right |
| MmrPaths.Descend | src/state/mod.rs:346-363 | The descent from a peak returns the target's siblings bottom up |
| MmrPaths.GetMmrPath | src/state/mod.rs:328-364 | For every node, not only leaves, the path is that of its siblings up to its peak; beyond the node count it is empty |
| MmrPaths.SiblingsBothWays | src/state/mod.rs:203-364 | The bottom-up and the top-down algorithm return the same path for every leaf |
| MmrProofs.FoldReachesAncestor | src/state/mod.rs:203-266 | Folding any node with the logged digests at its sibling positions, smaller position first, gives the ancestor's position and digest |
| MmrProofs.LeafProofReachesOnePeak | src/state/mod.rs:203-266 | Folding a leaf with its computed path gives exactly one of the current peaks |
| MmrProofs.BagBinds | src/state/mod.rs:443-458 | Equal bagged roots of equally many peaks mean equal peaks, or a collision |
| MmrProofs.AncestorBinds | src/state/mod.rs:412-441 | Equal ancestors mean equal leaves, or a collision |
| MmrProofs.MmrRootBinds | src/state/mod.rs:412-458 | Lists of equal length with the same printed MMR root are equal, or two hashed inputs collide |
| Bytes.Utf8Injective | src/state/mod.rs:119-120 | The bytes hashed for a leaf determine its text |
| Bytes.Utf8Form | src/state/mod.rs:119-120 | Characters take the shortest form of section 3 of RFC 3629 |
| Bytes.PrintedDigestReadsBack | src/state/mod.rs:181-183 | A printed digest, stripped of "0x" and decoded, is the digest |
| Bytes.HexText | src/state/mod.rs:144-144 | Every byte prints as its high and its low digit out of "0123456789abcdef" |
| Bytes.PrintedDigest | src/state/mod.rs:181-183 | A printed digest is "0x" and 64 characters of that alphabet, two for each byte in order |
| Bytes.HexDecodeExact | src/state/mod.rs:372-375 | Decoding works exactly for an even number of digits, two to a byte |
| Bytes.HexValueListed | src/state/mod.rs:372-375 | Digits of either case have their values |
| Bytes.HexValueOnly | src/state/mod.rs:372-375 | Nothing else is a digit |
| Bytes.Trim0xExact | src/state/mod.rs:372-372 | Every leading "0x" goes, and no more |
| MerkleTree.BuildTree | src/state/mod.rs:107-146 | Levels and printed root are those defined by repeated pairing, an odd last node being paired with itself |
| MerkleTree.HashPairs | src/state/mod.rs:128-139 | One pass over the chunks computes the next level |
| MerkleTree.LastLevelIsRoot | src/state/mod.rs:127-144 | The last level is the single root digest, at index depth |
| MerkleTree.PathFromLevels | src/state/mod.rs:167-186 | The path read off the stored levels is the sibling path of the index |
| MerkleTree.VerifyMerkleProof | src/state/mod.rs:366-389 | Accepts exactly when every sibling decodes and the fold prints as the given root, whatever the siblings' lengths |
| MerkleTree.PathFoldsToRoot | src/state/mod.rs:158-193 | From every index of a level of any length, the path folds to the root |
| MerkleTree.GeneratedProofsVerify | src/state/mod.rs:158-193 | Every proof generated for a key in the list is accepted |
| MerkleTree.FoldSound | src/state/mod.rs:366-389 | A fold of full depth that reaches the root started from an entry of the level, or two hashed inputs collide |
| MerkleTree.AcceptedLeafIsPresent | src/state/mod.rs:366-389 | An accepted proof against the current root with a path as long as the tree is deep is about a leaf of the list, or two hashed inputs collide |
| MerkleTree.LevelBinds | src/state/mod.rs:127-142 | Levels of equal length with equal roots are equal, or a collision |
| MerkleTree.StateRootBinds | src/state/mod.rs:107-146 | Lists of equal length with the same state root are equal, or a collision |
| MerkleTree.OddListSharesRoot | src/state/mod.rs:134-137 | Every odd list of three or more shares its root with the list whose last leaf is repeated |
| MerkleLimits.PaddedRoot | src/state/mod.rs:127-142 | Padding a level to a full tree by repeating last nodes keeps the root and hashes nothing new |
| MerkleLimits.SharedRootIffSamePadding | src/state/mod.rs:107-146 | Lists of equal tree depth share a state root exactly when they pad to the same list, or a collision |
| MerkleLimits.RootsOfDifferentDepth | src/state/mod.rs:107-146 | Lists whose trees differ in depth share a state root only if every leaf of the shallower is the 64 bytes of an inner node of the deeper, or a collision |
| MerkleLimits.FoldSoundAt | src/state/mod.rs:366-389 | A fold of any length up to the depth that reaches the root started in the level that many steps below it, or a collision |
| MerkleLimits.ShortFold | src/state/mod.rs:366-389 | The first byte string of a fold shorter than the tree is the 64 bytes of an inner node, or a collision |
| MerkleLimits.LongFold | src/state/mod.rs:366-389 | A fold longer than the tree hashes a byte string of 32 bytes or more to a leaf's digest, or a collision |
| MerkleLimits.AcceptedProofMeans | src/state/mod.rs:366-389 | An accepted proof of any length is, unless two hashed inputs collide, about a leaf at the tree's depth, about an inner node's 64 bytes if shorter, and impossible if longer unless some leaf has 32 bytes or more |
| MerkleLimits.AcceptedLeafIsPresentAtAnyLength | src/state/mod.rs:366-389 | So the text is a leaf, or a collision, for every path length, given that a text with a shorter path is not 64 bytes and that leaves are under 32 bytes when the path is longer |
| MerkleLimits.InnerTextAccepted | src/state/mod.rs:366-389 | Conversely every text with the bytes of an inner node has an accepted proof shorter than the tree |
| MerkleLimits.ShortProofAccepted | src/state/mod.rs:366-389 | Such a proof in figures: a hash without collisions among the inputs, two leaves, and an accepted proof for a text that is neither |
| RootLaws.StateRootPrinted | src/state/mod.rs:107-146 | The state root is "0x" and 64 lower-case hexadecimal digits, or "0x" and 64 zeros for no leaves |
| RootLaws.MmrRootPrinted | src/state/mod.rs:443-458 | So is the MMR root |
| RootLaws.SmallStateRoots | src/state/mod.rs:115-144 | The bytes hashed, in order, for one, two and three leaves |
| RootLaws.BagSnoc | src/state/mod.rs:449-455 | Each further peak's bytes are hashed before those of the root of the peaks above it |
| RootLaws.EvenAppendRoot | src/state/mod.rs:412-458 | A leaf appended to an even number of leaves makes the hash of its digest and the old root the new MMR root |
| RootLaws.PowerOfTwoRootsAgree | src/state/mod.rs:107-458 | A list of 2^d leaves has the same state root and MMR root |
| RootLaws.StateRootIsPaddedMmrRoot | src/state/mod.rs:107-458 | The state root of any list is the MMR root of the list padded to a full tree |
| RootLaws.AcceptsIffChain | src/state/mod.rs:366-389 | A proof is accepted exactly when a chain of digests, each the hash of the one before and the decoded sibling in the flagged order, leads from its leaf's digest to its printed root |
| NexusState.Tracker.constructor | src/state/mod.rs:37-46 | A new tracker is consistent and empty |
| NexusState.Tracker.RebuildTree | src/state/mod.rs:107-146 | Root and levels become those of the leaves |
| NexusState.Tracker.UpdateStateBatch | src/state/mod.rs:65-77 | Leaves grow by the batch, everything stays consistent, and exactly the new log entries are returned |
| NexusState.Tracker.AppendLeaves | src/state/mod.rs:70-76 | The append loop takes the MMR of a list to that of the longer list and joins the outputs |
| NexusState.Tracker.SetInitialLeaves | src/state/mod.rs:79-98 | From any state, even an inconsistent one, the state of the given leaves |
| NexusState.Tracker.SetMmrState | src/state/mod.rs:100-105 | The tracker stays consistent exactly when the arguments are the current peaks and leaf count |
| NexusState.Tracker.GetLeafIndex | src/state/mod.rs:195-197 | The first index of the text, or none exactly when it is absent |
| NexusState.Tracker.GenerateMerkleProof | src/state/mod.rs:158-193 | A proof exactly for keys present, for their first index, with the current root, and accepted by the checker |
| NexusState.Tracker.GetMmrProofMetadata | src/state/mod.rs:203-266 | Position and sibling path of every leaf in range |
| NexusState.Tracker.AssembleMmrProof | src/state/mod.rs:268-287 | The peaks printed are those of the leaves, one for each set bit, beside their root |
| NexusState.EntriesFromJoin | src/state/mod.rs:65-77 | Outputs of consecutive batches join into the output of one batch |
| NexusState.SameLeavesSameState | src/state/mod.rs:61-98 | Consistent trackers with the same leaves agree on levels, root, peaks, size and node count |
| NexusState.ReplayBatches | src/state/mod.rs:61-77 | However a list is split into batches, final state and joined outputs are those of one batch |
| NexusLocks.ProgramsDisciplined | src/state/mod.rs:48-287 | Every method takes locks in strictly rising order leaves, tree levels or MMR, root, returns them all, and touches each field only under its lock |
| NexusLocks.LocksKept | src/state/mod.rs:23-28 | Every operation of every thread keeps lock order and ownership |
| NexusLocks.NoSelfDeadlock | src/state/mod.rs:203-210 | No thread waits for a lock it holds |
| NexusLocks.NoDeadlock | src/state/mod.rs:23-28 | Whenever a thread is inside a method, some thread inside a method can run |
| NexusSteps.AddAllRight | src/state/mod.rs:70-75 | The appends of a batch take the MMR of a list, with its node log, to those of the longer list |
| NexusSteps.PathOfRight | src/state/mod.rs:167-186 | The path read from stored levels is that of the leaves they were built from |
| NexusSteps.CallRight | src/state/mod.rs:48-287 | The operations of every method, run on the fields of any leaves, leave all fields those of the leaves the method leaves, appended batch or replaced list, and give its result |
| NexusRuns.StepKeepsInv | src/state/mod.rs:65-287 | Each single step of any thread keeps the invariant of locks, threads, fields, history and lone reads |
| NexusRuns.RunsKeepInv | src/state/mod.rs:65-287 | So does every interleaved run |
| NexusRuns.EveryRunIsSafe | src/state/mod.rs:23-287 | For any number of threads and any interleaving: no deadlock; every call that takes the leaves returned what it returns alone on the leaves left by the calls that returned before it; with the leaves free all fields are those of the calls returned so far; and a root or MMR read on its own is that of the leaves before or after the call then holding them |
| NexusRuns.ReplayIs | src/state/mod.rs:65-98 | The leaves are the list last set as a whole followed by the batches that returned after it, in order, and each of those returned one node list |
| NexusRuns.OutputsJoin | src/state/mod.rs:65-77 | The node lists returned since any point without a reset join into the log of everything appended since |
| NexusRuns.ProofsRight | src/state/mod.rs:158-193 | A finished proof request returned a proof exactly when its key was among the leaves it held; the proof is accepted and carries the key and the root of those leaves |
| NexusRuns.ReadsRight | src/state/mod.rs:195-210 | Finished reads of lengths, first index and text by index, on the leaves they held |
| CountsCache.StaleMeansApart | src/api/grpc.rs:84-93 | With nothing fresh in the cache, ten seconds have passed since every store |
| CountsCache.LookExact | src/api/grpc.rs:84-93 | A look answers exactly when a pair was stored less than 10,000 ms before, and otherwise goes on to the lock or the fetch |
| CountsCache.SomeoneCanGo | src/api/grpc.rs:112-127 | While some caller is inside, some caller can take a step of its own |
| CountsCache.RunsKeepInv | src/api/grpc.rs:84-127 | Every run of any number of callers keeps the cache's invariant |
| CountsCache.EveryRunIsSafe | src/api/grpc.rs:84-127 | At most one fetch is in flight; stores, and a store and any later fetch, are at least 10,000 ms apart; every answer was fetched by its caller or stored less than 10,000 ms before it was read; what is stored is what was answered from fetches, in order; and some caller inside can always go on |
| CountsCache.StoreRate | src/api/grpc.rs:63-127 | A span of time sees at most one store for each ten seconds, and one more |
| SignedText.FieldFound | src/api/erp.rs:263-275 | With distinct names and no bare equals signs in values, every label is found at its place and followed by its value |
| SignedText.FieldRead | src/api/erp.rs:263-275 | Every field of a labelled text is read back by its name, up to the next bar or the next label |
| SignedText.TextInjective | src/api/erp.rs:263-275 | A text with fixed prefix and names determines its values |
| SignedText.DecimalReadsBack | src/api/erp.rs:268-274 | A printed integer reads back, with a minus sign exactly for negative ones and no leading zeros |
| ErpText.EncodePayloadValue | src/api/erp.rs:278-290 | The loop computes the escaping of the whole text |
| ErpText.EscapeIsPercentEncoded | src/api/erp.rs:278-290 | The four escapes have the form of section 2.1 of RFC 3986 |
| ErpText.EncodeRoundTrip | src/api/erp.rs:278-290 | Escaped text holds no separator and decodes to the original |
| ErpText.EncodeChar | src/api/erp.rs:278-290 | Exactly the four characters % | = , are escaped, each in percent form |
| ErpText.EncodeConcat | src/api/erp.rs:278-290 | Escaping works piece by piece |
| ErpText.JoinInjective | src/api/erp.rs:253-261 | Non-empty lists printed alike are equal |
| ErpText.ListTextDetermines | src/api/erp.rs:253-261 | Lists print alike exactly when equal, or when both are empty or the single entry "-" |
| ErpText.TextDeterminesContent | src/api/erp.rs:248-276 | Two requests sign the same text exactly when organization, type, timestamp, action, trimmed key id, trimmed nonce, both times and the list agree, with that one exception |
| ErpText.FieldsByName | src/api/erp.rs:248-276 | The text before the first bar is "nexus:erp:attestation:v1", and for each of the nine labels, by name, the text from the label to the next bar decodes to that field of the request |
| ErpText.LabelsInOrder | src/api/erp.rs:263-275 | The nine labels stand in the source's order |
| ErpText.WhiteSpaceListed | src/api/erp.rs:271-272 | Trimming is by the 25 code points of White_Space |
| ErpReplay.LifetimeCheck | src/api/erp.rs:214-220 | The check passes exactly lifetimes up to 600 s and differences that wrap |
| ErpReplay.TtlBounds | src/api/erp.rs:225-246 | Every accepted nonce is kept at least 1 second, and at most 660 if the lifetime does not wrap |
| ErpReplay.TtlBoundedIff | src/api/erp.rs:195-246 | The 1 to 660 second bound holds at all times exactly under a stated condition on the two times of the attestation |
| ErpReplay.WrappedLifetimeAccepted | src/api/erp.rs:195-246 | An attestation with a wrapped lifetime that is accepted beyond the bound, at a clock of 1,760,000,000 |
| ErpReplay.NonceStore.SetIfAbsent | src/api/erp.rs:351-364 | The key is claimed exactly when not alive, and then lives for its time to live |
| ErpReplay.HandleSync | src/api/erp.rs:117-137 | The handler's outcome and the store after it, with the refusal without trusted keys, every error path and lost replies |
| ErpReplay.StoreIsLatestClaim | src/api/erp.rs:339-367 | After every run, what is stored for a key is the end of its latest successful claim, which outlasts every earlier one |
| ErpReplay.AcceptedIff | src/api/erp.rs:159-375 | Over every run: an attempt is accepted exactly when it verifies, its store answers, and every earlier successful claim of the same key has lapsed |
| ErpAcceptance.FormExact | src/api/erp.rs:195-223 | The form check in figures: 1 to 128 and 1 to 256 bytes, 64 hexadecimal digits, a lifetime up to 600 s |
| ErpAcceptance.GenuineIff | src/api/erp.rs:159-193 | Verification succeeds exactly for well-formed requests with a trusted key, a right MAC of the canonical text and times in the window, and gives the nonce's key and time to live |
| ErpAcceptance.GenuineInPlainTime | src/api/erp.rs:195-246 | Away from the ends of the 64-bit range the time conditions are plain inequalities with 60 and 600 |
| ErpAcceptance.AcceptedExactly | src/api/erp.rs:122-137 | Over every run an attempt is accepted exactly when it is genuine, the store answers, and no earlier claim of its nonce is still kept, said without the functions that decide it |
| ErpAcceptance.ReplyExact | src/api/erp.rs:117-246 | The answer to every attempt of every run, with the order of the nine outcomes |
| ErpAcceptance.NonceBytes | src/api/erp.rs:315-321 | The hashed bytes are the three trimmed fields with a bar byte between them |
| ErpAcceptance.ReplayKeyText | src/api/erp.rs:315-328 | The replay key is its prefix and the 64 lower-case digits of their digest |
| ErpReplay.KeyStays | src/api/erp.rs:339-367 | A living key is never rewritten by any later attempts |
| ErpReplay.ClaimOutlivesAttestation | src/api/erp.rs:244-245 | A verified nonce is kept at least until its attestation expires and at least one second |
| ErpReplay.AtMostOnceWhileKept | src/api/erp.rs:339-375 | Over every run, nothing with the same replay key is accepted before the expiry of an accepted attestation |
| ErpReplay.SignedTextAcceptedOnce | src/api/erp.rs:195-375 | No signed text is accepted twice strictly before it expires, however claims are delayed and replies lost |
| ErpReplay.PromptAttemptsAtMostTwice | src/api/erp.rs:230-245 | With prompt claims, two acceptances of one text are one before and one in the second of expiry |
| ErpReplay.AcceptedAgainIffLapsed | src/api/erp.rs:230-245 | The two-attempt case: after a first claim, a second attempt with the same text is accepted exactly when it verifies, is answered and comes after the first one's time to live |
| ErpReplay.AcceptedAgainAtExpiry | src/api/erp.rs:230-245 | A text accepted in time is accepted again in the second equal to its expiry |
| ErpReplay.ExpirySecondReplays | src/api/erp.rs:230-245 | A concrete attestation accepted at 1050 and again at its expiry 1100, under every hash |
| ErpKeys.ReplayKeysSeparate | src/api/erp.rs:315-328 | For any two nonces: equal trimmed triples share a replay key, and a shared key means equal triples, a hashed text that can be cut at another pair of bars, or a collision |
| ErpKeys.TrimExact | src/api/erp.rs:317-321 | White space goes at both ends, all of it and nothing else |
| ErpKeys.SharesTextIff | src/api/erp.rs:315-328 | A different trimmed triple has the same hashed text exactly when the text has another pair of bars whose three pieces are their own trim |
| ErpKeys.SharesKeyIff | src/api/erp.rs:315-328 | So, under every hash, a different triple shares the replay key without a collision exactly then |
| ErpKeys.BarFreeKeysSeparate | src/api/erp.rs:315-328 | Organizations and key ids without bars share a replay key only for equal triples, or a collision |
| ErpKeys.BarsCanShareKey | src/api/erp.rs:315-328 | Two organizations with different trusted keys, both requests verified under any hash, the second refused as a replay of the first |
| KwilText.ReplacementsEscape | src/storage/kwil.rs:221-223 | The two successive replacements are one pass of escaping |
| KwilText.EscapeRoundTrip | src/storage/kwil.rs:221-223 | Although backslashes are left alone, the escaping can be undone and leaves no bare equals sign |
| KwilText.EncodeChar | src/storage/kwil.rs:221-223 | Exactly bars and equals signs get a backslash before them |
| KwilText.EncodeConcat | src/storage/kwil.rs:221-223 | Escaping works piece by piece |
| KwilText.KindRead | src/storage/kwil.rs:79-303 | The text before the first bar tells the kind |
| KwilText.BlockFields | src/storage/kwil.rs:79-86 | Each field of a block text is read back from behind its own label |
| KwilText.StateRootFields | src/storage/kwil.rs:121-126 | Each field of a state-root text is read back from behind its own label |
| KwilText.MmrNodeFields | src/storage/kwil.rs:159-165 | Each field of an MMR-node text is read back from behind its own label |
| KwilText.ProposalFields | src/storage/kwil.rs:250-259 | Each field of a proposal text is read back from behind its own label |
| KwilText.SettlementLogFields | src/storage/kwil.rs:297-303 | Each field of a settlement-log text is read back from behind its own label |
| KwilText.SignedTextDeterminesPayload | src/storage/kwil.rs:79-303 | A signed text determines its kind and every field printed in it |
| Oracle.RetainedIsClose | src/oracle/aggregator.rs:86-89 | Exactly the quotes less than 10% from the first mean are retained |
| Oracle.AggregateKey | src/oracle/aggregator.rs:79-114 | One currency's loops compute mean, rejection, mean of the rest and confidence, or nothing |
| Oracle.FetchUniversalFx | src/oracle/aggregator.rs:60-116 | Whatever the order of currencies, each is reported exactly when it has an answer, with that rate and confidence; no provider at all is an error |
| OracleLaws.ListingExact | src/oracle/aggregator.rs:74-77 | The providers of a currency's quotes are exactly those that list it, each once, in order |
| OracleLaws.QuotesExact | src/oracle/aggregator.rs:74-77 | Each quote is its provider's own rate and weight |
| OracleLaws.RetainedExact | src/oracle/aggregator.rs:86-89 | Exactly the close quotes are retained, each as often as it is quoted |
| OracleLaws.AnswerExact | src/oracle/aggregator.rs:73-114 | Over the providers' own weights: the weighted distances of all quotes cancel around one first mean; nothing is reported exactly when no quote is within 10% of it; else those of the near quotes cancel around the reported rate r, and the confidence c is 1/2 for one quote, and for more (1 - c)^2 r^2 times their weight is their weighted sum of squared distances from r |
| OracleLaws.UnlistedHasNoAnswer | src/oracle/aggregator.rs:73-79 | A currency no provider lists gets nothing |
| Oracle.CloseMeans | src/oracle/aggregator.rs:86-89 | Close to a positive mean is strictly between 0.9 and 1.1 of it; everything is close to a negative mean |
| Oracle.FinalMeanNotZero | src/oracle/aggregator.rs:91-107 | The second mean is never zero, so the confidence is defined |
| Oracle.MeanWithin | src/oracle/aggregator.rs:92-94 | The mean lies between the least and the greatest rate |
| Oracle.VarianceBound | src/oracle/aggregator.rs:99-103 | With rates strictly between a and b and mean f the variance is below (b - f)(f - a) |
| Oracle.TenPercentVariance | src/oracle/aggregator.rs:99-106 | With all rates within 10% of one number, 99 times the variance is below the squared mean |
| Oracle.RateNearMean | src/oracle/aggregator.rs:79-94 | The reported rate lies strictly within 10% of a positive first mean |
| Oracle.PositiveRatesAggregate | src/oracle/aggregator.rs:73-111 | For positive rates and weights, any number of sources: rate strictly within 10% of the first mean and between the least and greatest retained rates, confidence 1/2 for one retained source and in (8/9, 1] for more |
| Oracle.ConfidenceBounds | src/oracle/aggregator.rs:98-107 | With two or more sources retained the confidence c is above 8/9, at most 1, and 99 (1 - c)^2 < 1 |
| Oracle.ConfidenceAtMostOneIff | src/oracle/aggregator.rs:98-107 | For any rates with two or more retained, the confidence is at most 1 exactly when the weighted sum of the quoted rates is positive or all of them are equal |
| Oracle.VarianceZero | src/oracle/aggregator.rs:99-103 | The variance is zero exactly when all rates are equal |
| Oracle.NegativeRatesOverconfident | src/oracle/aggregator.rs:79-107 | Rates of -1 and -2 are both retained, aggregate to -1.5 and get a confidence above 1 |
| Billing.KeyRecord.TrackSignature | src/api/billing/mod.rs:256-306 | One request's effect on usage and grace start, and its reply, with every failing command |
| Billing.OpeningIsFirst | src/api/billing/mod.rs:125-154 | The opening request is the first one past the limit whose roll passes |
| Billing.RecordAfter | src/api/billing/mod.rs:256-306 | After any run without failures, usage is the number of requests and the stored start is the opening request's time |
| Billing.ReplyExact | src/api/billing/mod.rs:80-154 | The reply to every request of a run in closed form, from its index, its roll and the opening request's time |
| Billing.GraceWindow | src/api/billing/mod.rs:80-154 | Past the limit all successes fall in the 24 hours from the opening request, which is the first of them |
| Billing.FreeTierExact | src/api/billing/mod.rs:125-133 | Requests whose roll fails pass exactly among the first 50,000 |
| Billing.FailuresExact | src/api/billing/mod.rs:256-306 | A lost increment passes as usage 0, and a lost write lets the request pass and stores nothing |
| Billing.StartReplacedIff | src/api/billing/mod.rs:256-306 | A set start is replaced exactly by a passing request past the limit whose read of it failed |
| Billing.StartStays | src/api/billing/mod.rs:256-306 | With successful reads alone a set start stays for good and nothing counted passes after its 24 hours |
| Billing.FailedReadReopens | src/api/billing/mod.rs:267-285 | After 50,001 requests have opened the grace period, one failed read a day later opens a second one where a successful read expires |
| BillingRuns.QuotaKept | src/api/billing/mod.rs:256-266 | Every step of every interleaving keeps the count of within-limit answers paid for by counted or lost increments |
| BillingRuns.QuotaOverRuns | src/api/billing/mod.rs:256-266 | Under any interleaving at most 50,000 requests are answered within the limit, one more for each lost increment, and exactly that many when none is lost |
| BillingRuns.GraceKept | src/api/billing/mod.rs:266-291 | Every step keeps what is known of clock readings and starts while no read fails |
| BillingRuns.GraceOverRuns | src/api/billing/mod.rs:266-291 | Under any interleaving without failed reads, over-limit successes took their clock reading after the limit was crossed and less than 24 hours after the first start was written, and the stored start lies between those times |
| BillingRuns.AloneIsTrack | src/api/billing/mod.rs:256-306 | The steps of one request without interruption are the one-at-a-time request |
| BillingRuns.InterleavingMovesStart | src/api/billing/mod.rs:266-291 | A run of two racing requests, reachable from a new key, in which a set start changes |
| BillingRuns.StartCanMoveIff | src/api/billing/mod.rs:266-291 | After every run without failed reads that has a start stored, some continuation without failed reads changes it exactly when some request that read no start is on its way to write a different one |
| Lightning.PaymentIntent.ProcessRecovery | src/executor/lightning.rs:153-188 | Action and new intent for every status, failure type, counter and age |
| Lightning.AgeInSeconds | src/executor/lightning.rs:140-147 | An age of more than n whole seconds is one of at least n + 1 seconds |
| Lightning.ActionExact | src/executor/lightning.rs:131-188 | The action for each status and failure type, with ages of 301 and 601 seconds |
| Lightning.RecoveredExact | src/executor/lightning.rs:153-188 | What each action does to status, counter and timestamp |
| Lightning.TransitionsListed | src/executor/lightning.rs:97-118 | Exactly the twelve listed transitions are allowed |
| Lightning.RecoveryIsValid | src/executor/lightning.rs:97-188 | Every recovery step is an allowed transition or keeps the status; succeeded and permanently failed payments never move |
| Lightning.InertIff | src/executor/lightning.rs:131-188 | Exactly which intents no audit ever acts on, however late |
| Lightning.AuditsKeep | src/orchestrator.rs:96-176 | Over every run of audits failure type and creation time stay, and an inert intent stays altogether |
| Lightning.SplitsApart | src/executor/lightning.rs:144-173 | Over every run of audits two splits of one payment are at least 601 seconds apart |
| Lightning.RetriesGrow | src/executor/lightning.rs:136-167 | Left recovering from a transient failure, every audit adds one retry, without bound but for the counter's wrap |
| Lightning.RetriesCounted | src/executor/lightning.rs:162-167 | Over every run of audits and recorded outcomes the counter is the number of retries initiated, up to its wrap |
| Lightning.RetryBound | src/executor/lightning.rs:131-167 | With the outcome recorded as failed or succeeded before each audit, the counter stays at most 3 |
| Lightning.RetryBoundIff | src/executor/lightning.rs:131-167 | Over every run the counter stays within 3 exactly when no audit finds a transient failure with three retries that is due and not recorded as failed |
| Lightning.PaymentStore.AuditLightningPayments | src/orchestrator.rs:96-176 | Rows are recovered from their own stored state up to the first unreadable row or failing statement, with one event for each acted-on row before it; all others stay |
| Lightning.EventsExact | src/orchestrator.rs:141-170 | Each logged event names an acted-on payment, its action and the status that action leads to |
| Lightning.ActingExact | src/orchestrator.rs:141-170 | Every acted-on row is logged once, in order, and no other |
| Lightning.LateWriteValidIff | src/orchestrator.rs:141-160 | Writing a result computed from an older row is an allowed change exactly when the payment was not recorded as succeeded meanwhile |
| Lightning.LateWriteUndoesSuccess | src/orchestrator.rs:141-160 | An audit that takes a succeeded payment back to recovering |

## Left out

- HTTP, gRPC, Redis, SQL, Nostr, WebSocket, Tableland and Kwil transport: only the store commands that carry state (SET NX EX, HINCRBY, HGET, HSET, row SELECT and UPDATE) are modelled.
- SHA-256, HMAC and the other cryptography: parameters, see above.
- `generate_proof` and serialisation of proofs to JSON, and `get_mmr_proof` in src/api/rest.rs, which assembles proofs with an empty sibling list, so no inclusion property holds of it.
- `set_mmr_state` as a step of interleaved runs: it breaks consistency except as `SetMmrState` states.
- MmrPaths.GetMmrPath: leaves out 2^63 leaves and more, where `get_mmr_peaks` misplaces the first peak and the descent has no tree to follow.
- MmrPaths.SiblingsBothWays: leaves out the same leaf counts; at exactly 2^63 leaves the bottom-up algorithm fails.
- MmrPaths.ClimbToPeak: leaves out more than 2^63 leaves, where the node counter itself no longer fits in a word.
- NexusSteps: what a method computes between two lock operations is one step, since nothing it reads can change under the locks it holds; lock poisoning after a panic is not modelled.
- CountsCache: reading and storing the cached value under its own short lock is one step.
- Extraction of transaction ids and action from the OData payload, and the attestation id.
- Floating-point rounding in the oracle and of the roll threshold: reals; sums are finite and weights positive, as the constructor fixes them. The square root is a parameter with its defining property.
- Purchasing-power indices, the timestamp of the oracle's state and pushing it to the contract: constants and I/O.
- Authentication of telemetry requests, key generation, and 64-bit overflow of the usage counter or of clock differences in the billing code.
- Lightning: recorded outcomes are taken to keep the retry counter, as nothing in the repository writes it but the audit; `categorize_failure` and the textual form of statuses are tables one reading settles; timestamps have the microsecond resolution of the stored columns.
- src/executor/mod.rs sequencing: its cached latest time is never refreshed, so only a weak bound holds.
- Settlement policy checks, RGB, EVM, Cosmos, Stacks, Fedimint, DLC, identity, zkML, analytics, safety mode, administration, configuration, migrations and the Clarity contract: finite tables, format checks, wiring or stubs that would only add easy members.
