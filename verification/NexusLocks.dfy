/**
 Any number of threads running the state tracker's methods at the same time: a run interleaves
 single operations of the threads in any order. Every thread takes locks in rising rank and
 touches each field only under its lock, so there is no deadlock.
 */
module NexusLocks {
  import opened Bytes
  import opened MmrFoundation
  import opened NexusSteps

  /** Locks are taken in strictly rising rank; tree levels and MMR are never held together. */
  function Rank(l: Lock): (r: nat)
    ensures r <= 2
  {
    match l
    case LeavesLock => 0
    case LevelsLock => 1
    case MmrLock => 1
    case RootLock => 2
  }

  // ---------------------------------------------------------------- states and moves

  /** Locks a thread holds, last taken first. */
  datatype Held = Nothing | Push(top: Lock, below: Held)

  predicate Holds(held: Held, l: Lock) {
    held.Push? && (held.top == l || Holds(held.below, l))
  }

  datatype Thread = Thread(call: Call, code: Code, held: Held, local: Local)

  /** A method that has returned, with its result. */
  datatype Finished = Finished(call: Call, result: Result)

  /**
   A value read without the leaves lock, beside the calls finished by then and the call that
   held the leaves at that moment, if any.
   */
  datatype Peek = Peek(call: Call, result: Result, before: seq<Finished>, pending: Option<Call>)

  /** `history` lists the calls that take the leaves lock in the order in which they return. */
  datatype State = State(d: Fields, owner: map<Lock, nat>, threads: seq<Thread>,
                         history: seq<Finished>, peeks: seq<Peek>)

  datatype Move = Begin(t: nat, call: Call) | Run(t: nat)

  /** The lock a thread is about to take. */
  function Wants(code: Code): Option<Lock> {
    if code.Do? && code.op.Acquire? then Some(code.op.l) else None
  }

  /** The lock it is about to return. */
  function Returns(code: Code): Option<Lock> {
    if code.Do? && code.op.Release? then Some(code.op.l) else None
  }

  /** An idle thread may begin any call; a busy one may run unless its lock is taken. */
  predicate Enabled(s: State, m: Move) {
    m.t < |s.threads| &&
    match m
    case Begin(t, _) => s.threads[t].code == Done
    case Run(t) =>
      var code := s.threads[t].code;
      code != Done && (Wants(code).Some? ==> Wants(code).value !in s.owner)
  }

  /** The thread after running its next operation. */
  function Advance(sha: Hash, th: Thread, d: Fields): Thread
    requires th.code != Done
  {
    match th.code
    case Do(Acquire(l), rest) => th.(code := rest, held := Push(l, th.held))
    case Do(Release(l), rest) => th.(code := rest, held := if th.held.Push? then th.held.below else th.held)
    case Do(op, rest) => th.(code := rest, local := Note(sha, d, op, th.local))
    case LookUp(key, found, missed) =>
      if Finds(d, key) then th.(code := found, local := WithPath(d, key, th.local)) else th.(code := missed)
  }

  function FieldsAfter(sha: Hash, d: Fields, code: Code): Fields {
    if code.Do? then Effect(sha, d, code.op) else d
  }

  function OwnerAfter(owner: map<Lock, nat>, t: nat, code: Code): map<Lock, nat> {
    if Wants(code).Some? then owner[Wants(code).value := t]
    else if Returns(code).Some? then owner - {Returns(code).value}
    else owner
  }

  /** The methods that read or write the leaves, under their lock. */
  predicate TakesLeaves(call: Call) {
    !call.ReadRoot? && !call.ReadMmr?
  }

  predicate IsPeek(code: Code) {
    code.Do? && (code.op.FetchRoot? || code.op.FetchMmr?)
  }

  /** The call of the thread that holds the leaves. */
  function Pending(s: State): Option<Call> {
    if LeavesLock in s.owner && s.owner[LeavesLock] < |s.threads|
    then Some(s.threads[s.owner[LeavesLock]].call) else None
  }

  function Apply(sha: Hash, s: State, m: Move): State
    requires Enabled(s, m)
  {
    var th := s.threads[m.t];
    match m
    case Begin(t, call) => s.(threads := s.threads[t := Thread(call, Program(call), th.held, NoLocal())])
    case Run(t) =>
      var next := Advance(sha, th, s.d);
      var result := next.local.result;
      State(
        FieldsAfter(sha, s.d, th.code),
        OwnerAfter(s.owner, t, th.code),
        s.threads[t := next],
        if next.code == Done && TakesLeaves(th.call) then s.history + [Finished(th.call, result)] else s.history,
        if IsPeek(th.code) then s.peeks + [Peek(th.call, result, s.history, Pending(s))] else s.peeks)
  }

  function Start(sha: Hash, n: nat): State {
    var idle := Thread(ReadRoot, Done, Nothing, NoLocal());
    State(Fields([], [], ZeroRoot(), EmptyView()), map[], seq(n, _ => idle), [], [])
  }

  /** All moves of the list can be made, one after the other. */
  predicate Legal(sha: Hash, s: State, ms: seq<Move>)
    decreases |ms|
  {
    ms == [] || (Enabled(s, ms[0]) && Legal(sha, Apply(sha, s, ms[0]), ms[1..]))
  }

  function After(sha: Hash, s: State, ms: seq<Move>): State
    requires Legal(sha, s, ms)
    decreases |ms|
  {
    if ms == [] then s else After(sha, Apply(sha, s, ms[0]), ms[1..])
  }

  // ---------------------------------------------------------------- lock discipline

  /** The locks an operation must run under: the one of each field it reads or writes. */
  function Needs(op: Instr): set<Lock> {
    match op
    case Acquire(_) => {}
    case Release(_) => {}
    case Extend(_) => {LeavesLock}
    case Replace(_) => {LeavesLock}
    case PutRoot => {LeavesLock, RootLock}
    case PutLevels => {LeavesLock, LevelsLock}
    case AppendMmr(_) => {LeavesLock, MmrLock}
    case ResetMmr(_) => {LeavesLock, MmrLock}
    case EmitProof(_) => {LeavesLock, RootLock}
    case ReadLengths => {LeavesLock, MmrLock}
    case FindLeaf(_) => {LeavesLock}
    case LeafAt(_) => {LeavesLock}
    case FetchRoot => {RootLock}
    case FetchMmr => {MmrLock}
  }

  /** No operation from here on changes the leaves. */
  predicate LeavesFixed(code: Code) {
    match code
    case Done => true
    case Do(op, rest) => !op.Extend? && !op.Replace? && LeavesFixed(rest)
    case LookUp(_, found, missed) => LeavesFixed(found) && LeavesFixed(missed)
  }

  /** No operation from here on changes the MMR. */
  predicate MmrFixed(code: Code) {
    match code
    case Done => true
    case Do(op, rest) => !op.AppendMmr? && !op.ResetMmr? && MmrFixed(rest)
    case LookUp(_, found, missed) => MmrFixed(found) && MmrFixed(missed)
  }

  predicate HoldsAll(held: Held, locks: set<Lock>) {
    forall l :: l in locks ==> Holds(held, l)
  }

  /**
   Run from here, the thread takes locks in rising rank and returns what it holds, last first and
   the leaves at the very end; it writes root and MMR only for the final leaves, the MMR once,
   and reads them on their own only without the leaves.
   */
  predicate Disciplined(code: Code, held: Held) {
    match code
    case Done => held == Nothing
    case Do(op, rest) =>
      (match op
       case Acquire(l) => (held.Push? ==> Rank(held.top) < Rank(l)) && Disciplined(rest, Push(l, held))
       case Release(l) =>
         held.Push? && held.top == l && (l == LeavesLock ==> rest == Done) && Disciplined(rest, held.below)
       case _ =>
         && HoldsAll(held, Needs(op)) && Disciplined(rest, held)
         && (op.FetchRoot? || op.FetchMmr? ==> !Holds(held, LeavesLock))
         && (op.PutRoot? ==> LeavesFixed(rest))
         && (op.AppendMmr? || op.ResetMmr? ==> MmrFixed(rest)))
    case LookUp(key, found, missed) =>
      HoldsAll(held, {LeavesLock, LevelsLock}) && Disciplined(found, held) && Disciplined(missed, held)
  }

  predicate Rising(held: Held) {
    held.Push? ==> Rising(held.below) && (held.below.Push? ==> Rank(held.below.top) < Rank(held.top))
  }

  lemma {:induction false} TopRanksHighest(held: Held, l: Lock)
    requires Rising(held) && Holds(held, l)
    ensures Rank(l) <= Rank(held.top)
  {
    if held.top != l {
      TopRanksHighest(held.below, l);
    }
  }

  ghost predicate OwnerRight(s: State, t: nat, l: Lock)
    requires t < |s.threads|
  {
    Holds(s.threads[t].held, l) <==> l in s.owner && s.owner[l] == t
  }

  /** Every thread is disciplined, and the owner table is what the threads hold. */
  ghost predicate LocksInv(s: State) {
    && (forall t :: 0 <= t < |s.threads| ==>
          Disciplined(s.threads[t].code, s.threads[t].held) && Rising(s.threads[t].held))
    && (forall l :: l in s.owner ==> s.owner[l] < |s.threads|)
    && (forall t, l :: 0 <= t < |s.threads| ==> OwnerRight(s, t, l))
  }

  lemma ClosesDisciplined(logged: bool)
    ensures Disciplined(Do(Release(LeavesLock), Done), Push(LeavesLock, Nothing))
    ensures Disciplined(CloseMmr(), Push(MmrLock, Push(LeavesLock, Nothing)))
    ensures Disciplined(CloseReset(logged), Push(MmrLock, Push(LeavesLock, Nothing)))
    ensures Disciplined(Missed(), Push(LevelsLock, Push(LeavesLock, Nothing)))
    ensures LeavesFixed(CloseMmr()) && LeavesFixed(CloseReset(logged))
    ensures MmrFixed(CloseMmr()) && MmrFixed(CloseReset(logged))
  {
    var l := Push(LeavesLock, Nothing);
    var last := Do(Release(LeavesLock), Done);
    assert Disciplined(last, l) && LeavesFixed(last) && MmrFixed(last);
    assert Disciplined(CloseMmr(), Push(MmrLock, l)) && LeavesFixed(CloseMmr()) && MmrFixed(CloseMmr());
    var root := Do(Release(RootLock), CloseMmr());
    assert Disciplined(root, Push(RootLock, Push(MmrLock, l))) && LeavesFixed(root) && MmrFixed(root);
    assert Disciplined(Missed(), Push(LevelsLock, l));
  }

  lemma LevelsDisciplined(rest: Code)
    requires Disciplined(rest, Push(LeavesLock, Nothing)) && LeavesFixed(rest)
    ensures var second := Do(Acquire(LevelsLock), Do(PutLevels, Do(Release(LevelsLock), rest)));
      Disciplined(second, Push(LeavesLock, Nothing)) && LeavesFixed(second)
  {
    var l := Push(LeavesLock, Nothing);
    var third := Do(Release(LevelsLock), rest);
    assert Disciplined(third, Push(LevelsLock, l)) && LeavesFixed(third);
    assert Disciplined(Do(PutLevels, third), Push(LevelsLock, l)) && LeavesFixed(Do(PutLevels, third));
  }

  lemma RebuildDisciplined(rest: Code)
    requires Disciplined(rest, Push(LeavesLock, Nothing)) && LeavesFixed(rest)
    ensures Disciplined(Rebuild(rest), Push(LeavesLock, Nothing))
  {
    var l := Push(LeavesLock, Nothing);
    LevelsDisciplined(rest);
    var second := Do(Acquire(LevelsLock), Do(PutLevels, Do(Release(LevelsLock), rest)));
    var first := Do(Release(RootLock), second);
    assert Disciplined(first, Push(RootLock, l)) && LeavesFixed(first);
    hide LeavesFixed, MmrFixed;
    assert Disciplined(Do(PutRoot, first), Push(RootLock, l));
  }

  /** The shape shared by the two writers. */
  lemma WriterDisciplined(leavesOp: Instr, mmrOp: Instr, close: Code)
    requires leavesOp.Extend? || leavesOp.Replace?
    requires mmrOp.AppendMmr? || mmrOp.ResetMmr?
    requires Disciplined(close, Push(MmrLock, Push(LeavesLock, Nothing))) && LeavesFixed(close) && MmrFixed(close)
    ensures Disciplined(Do(Acquire(LeavesLock), Do(leavesOp, Rebuild(Do(Acquire(MmrLock), Do(mmrOp, close))))), Nothing)
  {
    var l := Push(LeavesLock, Nothing);
    var tail := Do(Acquire(MmrLock), Do(mmrOp, close));
    assert Disciplined(Do(mmrOp, close), Push(MmrLock, l)) && LeavesFixed(Do(mmrOp, close));
    assert Disciplined(tail, l) && LeavesFixed(tail);
    hide LeavesFixed, MmrFixed;
    RebuildDisciplined(tail);
    assert Disciplined(Do(leavesOp, Rebuild(tail)), l);
  }

  /** Every method keeps the lock order and touches fields only under their locks. */
  lemma ProgramsDisciplined(call: Call)
    ensures Disciplined(Program(call), Nothing)
  {
    var l := Push(LeavesLock, Nothing);
    match call
    case UpdateBatch(texts) =>
      ClosesDisciplined(false);
      WriterDisciplined(Extend(texts), AppendMmr(texts), CloseMmr());
    case SetInitial(texts, logged) =>
      ClosesDisciplined(logged);
      WriterDisciplined(Replace(texts), ResetMmr(texts), CloseReset(logged));
    case GenerateProof(key) =>
      ProofDisciplined(key);
    case _ =>
      ClosesDisciplined(false);
      ReadersDisciplined(call);
  }

  lemma ProofDisciplined(key: string)
    ensures Disciplined(Program(GenerateProof(key)), Nothing)
  {
    var l := Push(LeavesLock, Nothing);
    var two := Push(LevelsLock, l);
    ClosesDisciplined(false);
    hide LeavesFixed, MmrFixed;
    assert Disciplined(Do(Release(RootLock), Missed()), Push(RootLock, two));
    assert Disciplined(Do(EmitProof(key), Do(Release(RootLock), Missed())), Push(RootLock, two));
    assert Disciplined(Found(key), two);
    assert Disciplined(LookUp(key, Found(key), Missed()), two);
    assert Disciplined(Do(Acquire(LevelsLock), LookUp(key, Found(key), Missed())), l);
  }

  lemma ReadersDisciplined(call: Call)
    requires !call.UpdateBatch? && !call.SetInitial? && !call.GenerateProof?
    ensures Disciplined(Program(call), Nothing)
  {
    hide LeavesFixed, MmrFixed;
    var l := Push(LeavesLock, Nothing);
    ClosesDisciplined(false);
    match call
    case Metadata =>
      assert Disciplined(Do(ReadLengths, CloseMmr()), Push(MmrLock, l));
      assert Disciplined(Do(Acquire(MmrLock), Do(ReadLengths, CloseMmr())), l);
    case LeafIndex(key) =>
      assert Disciplined(Do(FindLeaf(key), Do(Release(LeavesLock), Done)), l);
    case LeafByIndex(i) =>
      assert Disciplined(Do(LeafAt(i), Do(Release(LeavesLock), Done)), l);
    case ReadRoot =>
      assert Disciplined(Do(Release(RootLock), Done), Push(RootLock, Nothing));
      assert Disciplined(Do(FetchRoot, Do(Release(RootLock), Done)), Push(RootLock, Nothing));
    case ReadMmr =>
      assert Disciplined(Do(Release(MmrLock), Done), Push(MmrLock, Nothing));
      assert Disciplined(Do(FetchMmr, Do(Release(MmrLock), Done)), Push(MmrLock, Nothing));
  }

  lemma LocksKept(sha: Hash, s: State, m: Move)
    requires LocksInv(s) && Enabled(s, m)
    ensures LocksInv(Apply(sha, s, m))
  {
    hide FieldsAfter, Advance, Program, Disciplined, Rising, Holds, TakesLeaves, IsPeek, Pending;
    var s' := Apply(sha, s, m);
    if m.Begin? {
      IdleHoldsNothing(s.threads[m.t]);
      ProgramsDisciplined(m.call);
      forall u, l | 0 <= u < |s'.threads|
        ensures OwnerRight(s', u, l)
      {
        assert OwnerRight(s, u, l);
      }
    } else {
      StepDisciplined(sha, s.threads[m.t], s.d);
      forall u, l | 0 <= u < |s'.threads|
        ensures OwnerRight(s', u, l)
      {
        assert OwnerRight(s, u, l) && OwnerRight(s, m.t, l);
        HeldAfter(sha, s.threads[m.t], s.d, l);
      }
    }
  }

  lemma IdleHoldsNothing(th: Thread)
    requires Disciplined(th.code, th.held) && th.code == Done
    ensures th.held == Nothing && Rising(th.held)
  {
  }

  /** A disciplined thread stays disciplined when it runs one operation. */
  lemma StepDisciplined(sha: Hash, th: Thread, d: Fields)
    requires th.code != Done && Disciplined(th.code, th.held) && Rising(th.held)
    ensures Disciplined(Advance(sha, th, d).code, Advance(sha, th, d).held) && Rising(Advance(sha, th, d).held)
  {
    hide Finds, WithPath, Note, LeavesFixed, MmrFixed;
  }

  lemma HeldAfter(sha: Hash, th: Thread, d: Fields, l: Lock)
    requires th.code != Done && Disciplined(th.code, th.held) && Rising(th.held)
    ensures Holds(Advance(sha, th, d).held, l) <==>
      if Wants(th.code) == Some(l) then true else if Returns(th.code) == Some(l) then false else Holds(th.held, l)
    ensures Returns(th.code) == Some(l) ==> Holds(th.held, l)
  {
    hide Finds, WithPath, Note, LeavesFixed, MmrFixed, Needs;
    if Returns(th.code) == Some(l) && Holds(th.held.below, l) {
      TopRanksHighest(th.held.below, l);
    }
  }

  /** No thread ever waits for a lock it holds itself. */
  lemma NoSelfDeadlock(s: State, t: nat, l: Lock)
    requires LocksInv(s) && t < |s.threads| && Wants(s.threads[t].code) == Some(l)
    ensures !Holds(s.threads[t].held, l)
  {
    if Holds(s.threads[t].held, l) {
      TopRanksHighest(s.threads[t].held, l);
    }
  }

  /** If some thread is inside a method, some thread inside a method can run. */
  lemma NoDeadlock(s: State, t: nat) returns (u: nat)
    requires LocksInv(s) && t < |s.threads| && s.threads[t].code != Done
    ensures u < |s.threads| && s.threads[u].code != Done && Enabled(s, Run(u))
    decreases if Wants(s.threads[t].code).Some? then 3 - Rank(Wants(s.threads[t].code).value) else 0
  {
    if Enabled(s, Run(t)) {
      u := t;
    } else {
      var l := Wants(s.threads[t].code).value;
      u := s.owner[l];
      assert OwnerRight(s, u, l);
      if !Enabled(s, Run(u)) {
        TopRanksHighest(s.threads[u].held, l);
        u := NoDeadlock(s, u);
      }
    }
  }
}
