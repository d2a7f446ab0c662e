/**
 Whole runs of the interleaved tracker: no deadlock, and every call behaves as if it had run
 alone at the moment it returned the leaves, on the leaves left by the calls before it.
 */
module NexusRuns {
  import opened Binary
  import opened Bytes
  import opened MmrShape
  import opened MmrForest
  import opened MmrFoundation
  import opened MerkleTree
  import opened NexusState
  import opened NexusSteps
  import opened NexusLocks

  /** The leaves after the finished calls, one after the other. */
  function Replay(history: seq<Finished>): seq<string> {
    if history == [] then [] else LeavesAfter(Replay(history[..|history| - 1]), history[|history| - 1].call)
  }

  // ---------------------------------------------------------------- invariant

  /** What is left of a lone read. */
  predicate LoneCode(call: Call, code: Code) {
    match call
    case ReadRoot =>
      var last := Do(Release(RootLock), Done);
      code in {Program(ReadRoot), Do(FetchRoot, last), last}
    case ReadMmr =>
      var last := Do(Release(MmrLock), Done);
      code in {Program(ReadMmr), Do(FetchMmr, last), last}
    case _ => false
  }

  /** A busy thread is at its very start, holds the leaves, or is a lone reader. */
  predicate Shape(th: Thread) {
    || th.code == Done
    || (TakesLeaves(th.call) && th.code == Program(th.call) && th.local == NoLocal())
    || (TakesLeaves(th.call) && Holds(th.held, LeavesLock))
    || (LoneCode(th.call, th.code) && !Holds(th.held, LeavesLock))
  }

  ghost predicate ShapesInv(s: State) {
    forall t :: 0 <= t < |s.threads| ==> Shape(s.threads[t])
  }

  /** Where the thread that holds the leaves is heading. */
  ghost predicate Heading(sha: Hash, s: State, th: Thread) {
    && TakesLeaves(th.call)
    && RunToEnd(sha, s.d, th.code, th.local)
      == (SettledFields(sha, LeavesAfter(Replay(s.history), th.call)), ResultOf(sha, Replay(s.history), th.call))
  }

  /** Root and MMR are those of the leaves before or after the pending call. */
  ghost predicate Near(sha: Hash, d: Fields, before: seq<string>, call: Call) {
    && (d.root == StateRootText(sha, before) || d.root == StateRootText(sha, LeavesAfter(before, call)))
    && (d.mmr == MmrOf(sha, before) || d.mmr == MmrOf(sha, LeavesAfter(before, call)))
  }

  /** With the leaves free the fields are those of the finished calls; else the holder is on its way. */
  ghost predicate DataInv(sha: Hash, s: State) {
    && (LeavesLock !in s.owner ==> s.d == SettledFields(sha, Replay(s.history)))
    && (LeavesLock in s.owner ==>
          && s.owner[LeavesLock] < |s.threads|
          && Heading(sha, s, s.threads[s.owner[LeavesLock]])
          && Near(sha, s.d, Replay(s.history), s.threads[s.owner[LeavesLock]].call))
  }

  /** Each call returned what it returns alone on the leaves left by the calls before it. */
  ghost predicate HistoryRight(sha: Hash, history: seq<Finished>) {
    forall i :: 0 <= i < |history| ==> history[i].result == ResultOf(sha, Replay(history[..i]), history[i].call)
  }

  /** A lone read saw the leaves before or after the call then pending. */
  ghost predicate PeekRight(sha: Hash, p: Peek) {
    || p.result == ResultOf(sha, Replay(p.before), p.call)
    || (p.pending.Some? && p.result == ResultOf(sha, LeavesAfter(Replay(p.before), p.pending.value), p.call))
  }

  ghost predicate PeeksRight(sha: Hash, peeks: seq<Peek>) {
    forall i :: 0 <= i < |peeks| ==> PeekRight(sha, peeks[i])
  }

  ghost predicate Inv(sha: Hash, s: State) {
    LocksInv(s) && ShapesInv(s) && DataInv(sha, s) && HistoryRight(sha, s.history) && PeeksRight(sha, s.peeks)
  }

  // ---------------------------------------------------------------- one operation

  /** Running one operation does not change where the thread is heading. */
  lemma RunAdvances(sha: Hash, d: Fields, th: Thread)
    requires th.code != Done
    ensures RunToEnd(sha, FieldsAfter(sha, d, th.code), Advance(sha, th, d).code, Advance(sha, th, d).local)
      == RunToEnd(sha, d, th.code, th.local)
  {
    hide WithPath, Finds, StateRootText, TreeLevels, AddAll, NodesAdded, IndexOf;
  }

  lemma LastRelease(sha: Hash, d: Fields, th: Thread)
    requires Returns(th.code) == Some(LeavesLock) && Disciplined(th.code, th.held)
    ensures Advance(sha, th, d).code == Done && FieldsAfter(sha, d, th.code) == d
    ensures RunToEnd(sha, d, th.code, th.local) == (d, Advance(sha, th, d).local.result)
  {
    hide LeavesFixed, MmrFixed, Needs;
  }

  /** Only the holder of the leaves changes the fields. */
  lemma OthersOnlyRead(sha: Hash, d: Fields, th: Thread)
    requires th.code != Done && Disciplined(th.code, th.held) && !Holds(th.held, LeavesLock)
    ensures FieldsAfter(sha, d, th.code) == d
    ensures Returns(th.code) != Some(LeavesLock)
  {
    hide LeavesFixed, MmrFixed;
  }

  /** A thread that wants the leaves is at its very start. */
  lemma WantsAtStart(th: Thread)
    requires Shape(th) && Wants(th.code) == Some(LeavesLock) && !Holds(th.held, LeavesLock)
    ensures TakesLeaves(th.call) && th.code == Program(th.call) && th.local == NoLocal()
  {
  }

  lemma StartsWithLeaves(call: Call)
    ensures TakesLeaves(call) <==> Wants(Program(call)) == Some(LeavesLock)
    ensures Program(call) != Done && (!TakesLeaves(call) ==> LoneCode(call, Program(call)))
  {
  }

  /** Who neither holds nor wants the leaves is a lone reader. */
  lemma LoneReader(th: Thread)
    requires Shape(th) && th.code != Done && Wants(th.code) != Some(LeavesLock) && !Holds(th.held, LeavesLock)
    ensures !TakesLeaves(th.call) && LoneCode(th.call, th.code)
  {
    StartsWithLeaves(th.call);
    hide Program;
  }

  lemma ShapeKept(sha: Hash, th: Thread, d: Fields)
    requires Shape(th) && th.code != Done && Disciplined(th.code, th.held) && Rising(th.held)
    ensures Shape(Advance(sha, th, d)) && Advance(sha, th, d).call == th.call
  {
    HeldAfter(sha, th, d, LeavesLock);
    AdvanceKeepsCall(sha, th, d);
    if Holds(th.held, LeavesLock) {
      HolderTakes(th);
      if Returns(th.code) == Some(LeavesLock) {
        LastRelease(sha, d, th);
      }
      hide Advance, LoneCode, Program, Disciplined, Holds;
    } else if Wants(th.code) == Some(LeavesLock) {
      WantsAtStart(th);
      hide Advance, LoneCode, Program, Disciplined, Holds;
    } else {
      LoneReader(th);
      LoneAdvances(sha, th, d);
      hide Advance, LoneCode, Program, Disciplined, Holds;
    }
  }

  lemma AdvanceKeepsCall(sha: Hash, th: Thread, d: Fields)
    requires th.code != Done
    ensures Advance(sha, th, d).call == th.call
  {
    hide Note, Finds, WithPath;
  }

  lemma HolderTakes(th: Thread)
    requires Shape(th) && Holds(th.held, LeavesLock) && Disciplined(th.code, th.held)
    ensures TakesLeaves(th.call)
  {
    hide LoneCode, Program;
  }

  /** What a lone reader sees. */
  function Seen(d: Fields, call: Call): Result {
    if call == ReadRoot then Root(d.root) else MmrState(d.mmr.peaks, d.mmr.size)
  }

  lemma LoneAdvances(sha: Hash, th: Thread, d: Fields)
    requires LoneCode(th.call, th.code)
    ensures th.code != Done
    ensures Advance(sha, th, d).code == Done || LoneCode(th.call, Advance(sha, th, d).code)
    ensures IsPeek(th.code) ==> Advance(sha, th, d).local.result == Seen(d, th.call)
  {
  }

  // ---------------------------------------------------------------- near

  lemma {:induction false} FixedLeaves(sha: Hash, d: Fields, code: Code, local: Local)
    requires LeavesFixed(code)
    ensures RunToEnd(sha, d, code, local).0.leaves == d.leaves
    decreases code
  {
    hide Note, WithPath, Finds, StateRootText, TreeLevels, AddAll;
    match code
    case Done =>
    case Do(op, rest) => FixedLeaves(sha, Effect(sha, d, op), rest, Note(sha, d, op, local));
    case LookUp(key, found, missed) =>
      if Finds(d, key) {
        FixedLeaves(sha, d, found, WithPath(d, key, local));
      } else {
        FixedLeaves(sha, d, missed, local);
      }
  }

  lemma {:induction false} FixedMmr(sha: Hash, d: Fields, code: Code, local: Local)
    requires MmrFixed(code)
    ensures RunToEnd(sha, d, code, local).0.mmr == d.mmr
    decreases code
  {
    hide Note, WithPath, Finds, StateRootText, TreeLevels, AddAll;
    match code
    case Done =>
    case Do(op, rest) => FixedMmr(sha, Effect(sha, d, op), rest, Note(sha, d, op, local));
    case LookUp(key, found, missed) =>
      if Finds(d, key) {
        FixedMmr(sha, d, found, WithPath(d, key, local));
      } else {
        FixedMmr(sha, d, missed, local);
      }
  }

  /** The holder writes root and MMR of the leaves it leaves behind. */
  lemma NearKept(sha: Hash, d: Fields, th: Thread, before: seq<string>)
    requires th.code != Done && Disciplined(th.code, th.held) && Near(sha, d, before, th.call)
    requires RunToEnd(sha, d, th.code, th.local).0 == SettledFields(sha, LeavesAfter(before, th.call))
    ensures Near(sha, FieldsAfter(sha, d, th.code), before, th.call)
  {
    hide StateRootText, TreeLevels, MmrOf, AddAll, LeavesAfter;
    if th.code.Do? {
      var op, rest := th.code.op, th.code.rest;
      var d', local' := Effect(sha, d, op), Note(sha, d, op, th.local);
      assert RunToEnd(sha, d, th.code, th.local) == RunToEnd(sha, d', rest, local');
      if op.PutRoot? {
        FixedLeaves(sha, d', rest, local');
      } else if op.AppendMmr? || op.ResetMmr? {
        FixedMmr(sha, d', rest, local');
      }
    }
  }

  // ---------------------------------------------------------------- one move

  lemma BeginKeeps(sha: Hash, s: State, t: nat, call: Call)
    requires Inv(sha, s) && Enabled(s, Begin(t, call))
    ensures ShapesInv(Apply(sha, s, Begin(t, call))) && DataInv(sha, Apply(sha, s, Begin(t, call)))
  {
    StartsWithLeaves(call);
    IdleHoldsNothing(s.threads[t]);
    assert OwnerRight(s, t, LeavesLock) && !Holds(s.threads[t].held, LeavesLock);
    hide Program, LoneCode, Disciplined, Rising, RunToEnd, SettledFields, ResultOf, Near;
  }

  /** The holder takes one step, its last one or another. */
  lemma HolderKeeps(sha: Hash, s: State, t: nat)
    requires Inv(sha, s) && Enabled(s, Run(t)) && Holds(s.threads[t].held, LeavesLock)
    ensures DataInv(sha, Apply(sha, s, Run(t))) && HistoryRight(sha, Apply(sha, s, Run(t)).history)
  {
    var th, s' := s.threads[t], Apply(sha, s, Run(t));
    assert OwnerRight(s, t, LeavesLock);
    LocksKept(sha, s, Run(t));
    assert OwnerRight(s', t, LeavesLock);
    HeldAfter(sha, th, s.d, LeavesLock);
    RunAdvances(sha, s.d, th);
    AdvanceKeepsCall(sha, th, s.d);
    NearKept(sha, s.d, th, Replay(s.history));
    if Returns(th.code) == Some(LeavesLock) {
      LastRelease(sha, s.d, th);
      ReplaySnoc(sha, s.history, Finished(th.call, Advance(sha, th, s.d).local.result));
    } else {
      assert Advance(sha, th, s.d).code != Done by {
        StillHolds(sha, s', t);
      }
    }
    hide Advance, FieldsAfter, Disciplined, Rising, Holds, RunToEnd, SettledFields, ResultOf, Near, Replay;
    hide HistoryRight, LeavesAfter, Shape, IsPeek, Pending, PeeksRight;
  }

  lemma StillHolds(sha: Hash, s: State, t: nat)
    requires LocksInv(s) && t < |s.threads| && Holds(s.threads[t].held, LeavesLock)
    ensures s.threads[t].code != Done
  {
  }

  lemma ReplaySnoc(sha: Hash, history: seq<Finished>, f: Finished)
    ensures Replay(history + [f]) == LeavesAfter(Replay(history), f.call)
    ensures HistoryRight(sha, history) && f.result == ResultOf(sha, Replay(history), f.call) ==>
      HistoryRight(sha, history + [f])
  {
    var h := history + [f];
    assert h[..|history|] == history;
    assert Replay(h) == LeavesAfter(Replay(history), f.call);
    hide Replay, ResultOf;
    assert forall i :: 0 <= i < |history| ==> h[..i] == history[..i] && h[i] == history[i];
  }

  /** A thread takes the leaves. */
  lemma TakerKeeps(sha: Hash, s: State, t: nat)
    requires Inv(sha, s) && Enabled(s, Run(t)) && Wants(s.threads[t].code) == Some(LeavesLock)
    ensures DataInv(sha, Apply(sha, s, Run(t))) && Apply(sha, s, Run(t)).history == s.history
  {
    var th := s.threads[t];
    NoSelfDeadlock(s, t, LeavesLock);
    WantsAtStart(th);
    CallRight(sha, Replay(s.history), th.call);
    RunAdvances(sha, s.d, th);
    AdvanceKeepsCall(sha, th, s.d);
    TakeChanges(sha, s.d, th);
    SettledIsNear(sha, Replay(s.history), th.call);
    hide Advance, FieldsAfter, Disciplined, Rising, Holds, RunToEnd, SettledFields, ResultOf, Near, Replay, Program;
  }

  lemma SettledIsNear(sha: Hash, leaves: seq<string>, call: Call)
    ensures Near(sha, SettledFields(sha, leaves), leaves, call)
  {
    hide StateRootText, MmrOf, TreeLevels;
  }

  lemma TakeChanges(sha: Hash, d: Fields, th: Thread)
    requires th.code == Program(th.call) && TakesLeaves(th.call)
    ensures FieldsAfter(sha, d, th.code) == d && Advance(sha, th, d).code != Done
  {
    hide Rebuild, CloseMmr, CloseReset, Found, Missed;
  }

  /** A lone reader changes nothing. */
  lemma ReaderKeeps(sha: Hash, s: State, t: nat)
    requires Inv(sha, s) && Enabled(s, Run(t))
    requires Wants(s.threads[t].code) != Some(LeavesLock) && !Holds(s.threads[t].held, LeavesLock)
    ensures DataInv(sha, Apply(sha, s, Run(t))) && Apply(sha, s, Run(t)).history == s.history
  {
    var th := s.threads[t];
    OthersOnlyRead(sha, s.d, th);
    LoneReader(th);
    assert OwnerRight(s, t, LeavesLock);
    hide Advance, FieldsAfter, Disciplined, Rising, Holds, RunToEnd, SettledFields, ResultOf, Near, Replay, LoneCode;
    hide HistoryRight, PeeksRight, Shape, IsPeek, Pending;
  }

  lemma ReaderPeeks(sha: Hash, s: State, t: nat)
    requires Inv(sha, s) && Enabled(s, Run(t))
    requires Wants(s.threads[t].code) != Some(LeavesLock) && !Holds(s.threads[t].held, LeavesLock)
    ensures PeeksRight(sha, Apply(sha, s, Run(t)).peeks)
  {
    var th := s.threads[t];
    LoneReader(th);
    if IsPeek(th.code) {
      LoneAdvances(sha, th, s.d);
      PeekSees(sha, s, th.call);
    }
    hide Advance, FieldsAfter, OwnerAfter, LocksInv, ShapesInv, DataInv, HistoryRight, LoneCode, Pending;
    hide PeekRight, Seen;
  }

  lemma PeekSees(sha: Hash, s: State, call: Call)
    requires DataInv(sha, s) && !TakesLeaves(call)
    ensures PeekRight(sha, Peek(call, Seen(s.d, call), s.history, Pending(s)))
  {
    hide StateRootText, TreeLevels, Peaks, AllEntries, NodeCount, Replay, LeavesAfter, Heading;
  }

  lemma StepKeepsInv(sha: Hash, s: State, m: Move)
    requires Inv(sha, s) && Enabled(s, m)
    ensures Inv(sha, Apply(sha, s, m))
  {
    LocksKept(sha, s, m);
    if m.Begin? {
      BeginKeeps(sha, s, m.t, m.call);
      hide LocksInv, ShapesInv, DataInv, HistoryRight, PeeksRight, Program;
    } else {
      var th := s.threads[m.t];
      ShapesKept(sha, s, m.t);
      if Holds(th.held, LeavesLock) {
        HolderKeeps(sha, s, m.t);
        HolderNoPeek(th);
      } else if Wants(th.code) == Some(LeavesLock) {
        TakerKeeps(sha, s, m.t);
      } else {
        ReaderKeeps(sha, s, m.t);
        ReaderPeeks(sha, s, m.t);
      }
      hide LocksInv, ShapesInv, DataInv, HistoryRight, PeeksRight, Advance, FieldsAfter, OwnerAfter;
    }
  }

  lemma HolderNoPeek(th: Thread)
    requires Disciplined(th.code, th.held) && Holds(th.held, LeavesLock)
    ensures !IsPeek(th.code)
  {
    hide LeavesFixed, MmrFixed, Needs;
  }

  lemma ShapesKept(sha: Hash, s: State, t: nat)
    requires LocksInv(s) && ShapesInv(s) && Enabled(s, Run(t))
    ensures ShapesInv(Apply(sha, s, Run(t)))
  {
    ShapeKept(sha, s.threads[t], s.d);
    hide Shape, Advance, FieldsAfter, Disciplined, Rising, OwnerRight;
  }

  lemma {:induction false} RunsKeepInv(sha: Hash, s: State, ms: seq<Move>)
    requires Inv(sha, s) && Legal(sha, s, ms)
    ensures Inv(sha, After(sha, s, ms))
    decreases |ms|
  {
    hide Inv, Apply;
    if ms != [] {
      StepKeepsInv(sha, s, ms[0]);
      RunsKeepInv(sha, Apply(sha, s, ms[0]), ms[1..]);
    }
  }

  lemma StartIsFine(sha: Hash, n: nat)
    ensures Inv(sha, Start(sha, n))
  {
    EmptyMmr(sha);
    hide MmrOf, Levels, RootDigest, Print0x, ZeroRoot, HashLeaves, LoneCode, Program, ResultOf;
  }

  // ---------------------------------------------------------------- the promises

  /**
   For any number of threads and any interleaving: a thread inside a method means some thread
   inside a method can go on; every call that takes the leaves returned what it returns alone on
   the leaves left by the calls that returned before it; whenever nobody holds the leaves, all
   fields are those of the calls returned so far; and a root or MMR read on its own is that of
   the leaves before or after the call then holding them.
   */
  lemma EveryRunIsSafe(sha: Hash, n: nat, ms: seq<Move>)
    requires Legal(sha, Start(sha, n), ms)
    ensures var s := After(sha, Start(sha, n), ms);
      && (forall t :: 0 <= t < |s.threads| && s.threads[t].code != Done ==>
            exists u :: 0 <= u < |s.threads| && s.threads[u].code != Done && Enabled(s, Run(u)))
      && HistoryRight(sha, s.history)
      && (LeavesLock !in s.owner ==> s.d == SettledFields(sha, Replay(s.history)))
      && PeeksRight(sha, s.peeks)
  {
    hide After, Legal, Start, Apply, Enabled, LocksInv, ShapesInv, HistoryRight, PeeksRight, SettledFields, Replay;
    StartIsFine(sha, n);
    RunsKeepInv(sha, Start(sha, n), ms);
    var s := After(sha, Start(sha, n), ms);
    forall t | 0 <= t < |s.threads| && s.threads[t].code != Done
      ensures exists u :: 0 <= u < |s.threads| && s.threads[u].code != Done && Enabled(s, Run(u))
    {
      var u := NoDeadlock(s, t);
    }
  }

  // ---------------------------------------------------------------- what the history says

  /** The texts of the finished batches, in order. */
  function BatchesOf(history: seq<Finished>): seq<seq<string>> {
    if history == [] then []
    else
      var last := history[|history| - 1].call;
      BatchesOf(history[..|history| - 1]) + if last.UpdateBatch? then [last.texts] else []
  }

  /** What they returned. */
  function OutputsOf(history: seq<Finished>): seq<seq<Entry>> {
    if history == [] then []
    else
      var last := history[|history| - 1];
      OutputsOf(history[..|history| - 1]) +
      if last.call.UpdateBatch? then [if last.result.Nodes? then last.result.entries else []] else []
  }

  predicate NoReset(history: seq<Finished>) {
    forall k :: 0 <= k < |history| ==> !history[k].call.SetInitial?
  }

  lemma FlattenSnoc<T>(lists: seq<seq<T>>, list: seq<T>)
    ensures Flatten(lists + [list]) == Flatten(lists) + list
  {
    assert (lists + [list])[..|lists|] == lists;
  }

  lemma OutputsSnoc(history: seq<Finished>, f: Finished)
    ensures f.call.UpdateBatch? && f.result.Nodes? ==>
      Flatten(OutputsOf(history + [f])) == Flatten(OutputsOf(history)) + f.result.entries
    ensures !f.call.UpdateBatch? ==> OutputsOf(history + [f]) == OutputsOf(history)
  {
    assert (history + [f])[..|history|] == history;
    if f.result.Nodes? {
      FlattenSnoc(OutputsOf(history), f.result.entries);
    }
  }

  lemma BatchesSnoc(history: seq<Finished>, f: Finished)
    ensures Flatten(BatchesOf(history + [f])) ==
      Flatten(BatchesOf(history)) + if f.call.UpdateBatch? then f.call.texts else []
    ensures |BatchesOf(history + [f])| == |BatchesOf(history)| + if f.call.UpdateBatch? then 1 else 0
    ensures |OutputsOf(history + [f])| == |OutputsOf(history)| + if f.call.UpdateBatch? then 1 else 0
  {
    assert (history + [f])[..|history|] == history;
    if f.call.UpdateBatch? {
      FlattenSnoc(BatchesOf(history), f.call.texts);
    } else {
      assert BatchesOf(history + [f]) == BatchesOf(history);
      assert Flatten(BatchesOf(history)) + [] == Flatten(BatchesOf(history));
    }
  }

  lemma ReplayNext(history: seq<Finished>, f: Finished)
    ensures Replay(history + [f]) == LeavesAfter(Replay(history), f.call)
  {
    assert (history + [f])[..|history|] == history;
  }

  /** Calls that do not set the leaves as a whole append their batches, in order, each returning once. */
  lemma {:induction false} ReplayAppends(earlier: seq<Finished>, since: seq<Finished>)
    requires NoReset(since)
    ensures Replay(earlier + since) == Replay(earlier) + Flatten(BatchesOf(since))
    ensures |OutputsOf(since)| == |BatchesOf(since)|
    decreases |since|
  {
    if since == [] {
      assert earlier + since == earlier && Replay(earlier) + [] == Replay(earlier);
    } else {
      var n := |since| - 1;
      var front, last := since[..n], since[n];
      assert front + [last] == since && earlier + since == (earlier + front) + [last];
      assert NoReset(front) && !last.call.SetInitial?;
      hide Replay, Flatten, BatchesOf, OutputsOf, NoReset;
      ReplayAppends(earlier, front);
      ReplayNext(earlier + front, last);
      BatchesSnoc(front, last);
      assert Replay(earlier) + Flatten(BatchesOf(front)) + [] == Replay(earlier) + Flatten(BatchesOf(front));
    }
  }

  /**
   The leaves after any run of calls are the list last set as a whole, followed by the batches
   that returned after it, in the order in which they returned; without one, the batches alone.
   */
  lemma ReplayIs(earlier: seq<Finished>, set': Finished, since: seq<Finished>)
    requires NoReset(since)
    ensures Replay(since) == Flatten(BatchesOf(since))
    ensures set'.call.SetInitial? ==>
      Replay(earlier + [set'] + since) == set'.call.texts + Flatten(BatchesOf(since))
    ensures |OutputsOf(since)| == |BatchesOf(since)|
  {
    ReplayAppends([], since);
    assert [] + since == since && Replay([]) + Flatten(BatchesOf(since)) == Flatten(BatchesOf(since));
    ReplayAppends(earlier + [set'], since);
    ReplayNext(earlier, set');
  }

  /** The node lists returned since some point join into the log of everything appended since. */
  lemma {:induction false} OutputsJoin(sha: Hash, earlier: seq<Finished>, since: seq<Finished>)
    requires NoReset(since) && HistoryRight(sha, earlier + since)
    ensures Replay(earlier) <= Replay(earlier + since)
    ensures Flatten(OutputsOf(since)) == EntriesFrom(sha, Replay(earlier + since), |Replay(earlier)|)
    decreases |since|
  {
    if since == [] {
      assert earlier + since == earlier;
      NoEntries(sha, Replay(earlier));
    } else {
      var n := |since| - 1;
      var front, last := since[..n], since[n];
      var all := earlier + since;
      assert front + [last] == since && all == (earlier + front) + [last];
      assert all[..|all| - 1] == earlier + front && all[|all| - 1] == last;
      FrontRight(sha, all);
      hide Replay, EntriesFrom, HistoryRight, OutputsOf, Flatten, ResultOf;
      OutputsJoin(sha, earlier, front);
      ReplayNext(earlier + front, last);
      OutputsSnoc(front, last);
      if last.call.UpdateBatch? {
        BatchJoins(sha, Replay(earlier), Replay(earlier + front), last);
      }
    }
  }

  lemma FrontRight(sha: Hash, history: seq<Finished>)
    requires history != [] && HistoryRight(sha, history)
    ensures var n := |history| - 1;
      HistoryRight(sha, history[..n]) && history[n].result == ResultOf(sha, Replay(history[..n]), history[n].call)
  {
    hide Replay, ResultOf;
    var n := |history| - 1;
    assert forall k :: 0 <= k < n ==> history[..n][..k] == history[..k] && history[..n][k] == history[k];
  }

  lemma BatchJoins(sha: Hash, base: seq<string>, leaves: seq<string>, f: Finished)
    requires f.call.UpdateBatch? && f.result == ResultOf(sha, leaves, f.call) && base <= leaves
    ensures f.result.Nodes?
    ensures EntriesFrom(sha, leaves, |base|) + f.result.entries == EntriesFrom(sha, leaves + f.call.texts, |base|)
  {
    hide EntriesFrom;
    var l := leaves + f.call.texts;
    assert l[..|leaves|] == leaves;
    EntriesFromJoin(sha, l, |base|, |leaves|);
  }

  /**
   A finished proof request returned a proof exactly when its key was among the leaves it held,
   and that proof is accepted and carries the key and the root of those leaves.
   */
  lemma ProofsRight(sha: Hash, history: seq<Finished>, i: nat)
    requires HistoryRight(sha, history) && i < |history| && history[i].call.GenerateProof?
    ensures var leaves, key, result := Replay(history[..i]), history[i].call.key, history[i].result;
      && (result.Proof? <==> key in leaves)
      && (result.Proof? ==>
            && Accepts(sha, result.proof) && result.proof.leaf == key
            && result.proof.root == StateRootText(sha, leaves))
  {
    hide Replay, Accepts, StateRootText, ProofPath, HashLeaves, FirstIndex;
    var leaves, key := Replay(history[..i]), history[i].call.key;
    if key in leaves {
      GeneratedProofsVerify(sha, leaves, key);
    }
  }

  /**
   The other finished reads: the leaf count and twice that less its set bits; the first index of
   a text, or none if it is absent; the text at an index, or none beyond the end.
   */
  lemma ReadsRight(sha: Hash, history: seq<Finished>, i: nat)
    requires HistoryRight(sha, history) && i < |history|
    ensures var leaves, call, result := Replay(history[..i]), history[i].call, history[i].result;
      && (call.Metadata? ==> result == Lengths(|leaves|, 2 * |leaves| - PopCount(|leaves|)))
      && (call.LeafIndex? ==> result.Index? && (result.index.None? <==> call.key !in leaves))
      && (call.LeafIndex? && result.index.Some? ==>
            var k := result.index.value; k < |leaves| && leaves[k] == call.key && call.key !in leaves[..k])
      && (call.LeafByIndex? && call.index < |leaves| ==> result == LeafText(Some(leaves[call.index])))
      && (call.LeafByIndex? && call.index >= |leaves| ==> result == LeafText(None))
  {
    hide Replay, PopCount;
  }
}
