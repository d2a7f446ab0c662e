/**
 The metrics-counts cache: a fresh value is returned at once; otherwise callers queue on the
 refresh lock, look again, and at most one of them fetches. Every caller is a task whose
 steps interleave freely; time passes between steps. A task may also be dropped at any wait.
 */
module CountsCache {
  import opened Bytes

  /** Milliseconds; the source's ten seconds. */
  const TTL := 10_000

  datatype Counts = Counts(txs: nat, blocks: nat)

  /** Where a caller is inside `read_cached_metrics_counts`. */
  datatype Pc =
    | Idle
    | FirstLook
    | WaitRefresh
    | SecondLook
    | BeforeFetch
    | Fetching
    | Storing(counts: Counts)

  datatype Cached = Cached(at: int, counts: Counts)

  /** What a caller was given, and where it came from. */
  datatype Answer =
    | FromCache(task: nat, counts: Counts, storedAt: int, readAt: int)
    | FromFetch(task: nat, counts: Counts)

  /** When a fetch began and how many stores had been made by then. */
  datatype FetchStart = FetchStart(at: int, storesBefore: nat)

  datatype State = State(
    now: int,
    value: Option<Cached>,
    refresher: Option<nat>,
    tasks: map<nat, Pc>,
    stores: seq<Cached>,
    fetchStarts: seq<FetchStart>,
    answers: seq<Answer>,
    fetched: set<(nat, Counts)>)

  datatype Step =
    | Call(t: nat)
    | Tick(delta: nat)
    | Look(t: nat)
    | Lock(t: nat)
    | Start(t: nat)
    | FetchOk(t: nat, counts: Counts)
    | FetchFail(t: nat)
    | Store(t: nat)
    | Drop(t: nat)

  function PcOf(s: State, t: nat): Pc {
    if t in s.tasks then s.tasks[t] else Idle
  }

  /** `cached_at.elapsed() < TTL`. */
  predicate Fresh(s: State) {
    s.value.Some? && s.now - s.value.value.at < TTL
  }

  predicate Enabled(s: State, step: Step) {
    match step
    case Call(t) => PcOf(s, t) == Idle
    case Tick(_) => true
    case Look(t) => PcOf(s, t).FirstLook? || PcOf(s, t).SecondLook?
    case Lock(t) => PcOf(s, t).WaitRefresh? && s.refresher.None?
    case Start(t) => PcOf(s, t).BeforeFetch?
    case FetchOk(t, _) => PcOf(s, t).Fetching?
    case FetchFail(t) => PcOf(s, t).Fetching?
    case Store(t) => PcOf(s, t).Storing?
    case Drop(t) => PcOf(s, t) != Idle
  }

  /** The refresh guard goes with the task that holds it. */
  function Leave(s: State, t: nat): State {
    s.(tasks := s.tasks[t := Idle], refresher := if s.refresher == Some(t) then None else s.refresher)
  }

  function Next(s: State, step: Step): State
    requires Enabled(s, step)
  {
    match step
    case Call(t) => s.(tasks := s.tasks[t := FirstLook])
    case Tick(delta) => s.(now := s.now + delta)
    case Look(t) =>
      if Fresh(s) then
        Leave(s, t).(answers := s.answers + [FromCache(t, s.value.value.counts, s.value.value.at, s.now)])
      else
        s.(tasks := s.tasks[t := if PcOf(s, t).FirstLook? then WaitRefresh else BeforeFetch])
    case Lock(t) => s.(tasks := s.tasks[t := SecondLook], refresher := Some(t))
    case Start(t) => s.(tasks := s.tasks[t := Fetching], fetchStarts := s.fetchStarts + [FetchStart(s.now, |s.stores|)])
    case FetchOk(t, counts) => s.(tasks := s.tasks[t := Storing(counts)], fetched := s.fetched + {(t, counts)})
    case FetchFail(t) => Leave(s, t)
    case Store(t) =>
      var entry := Cached(s.now, PcOf(s, t).counts);
      Leave(s, t).(value := Some(entry), stores := s.stores + [entry],
                   answers := s.answers + [FromFetch(t, entry.counts)])
    case Drop(t) => Leave(s, t)
  }

  function Begin(now: int): State {
    State(now, None, None, map[], [], [], [], {})
  }

  predicate Legal(s: State, steps: seq<Step>)
    decreases |steps|
  {
    steps == [] || (Enabled(s, steps[0]) && Legal(Next(s, steps[0]), steps[1..]))
  }

  function After(s: State, steps: seq<Step>): State
    requires Legal(s, steps)
    decreases |steps|
  {
    if steps == [] then s else After(Next(s, steps[0]), steps[1..])
  }

  // ---------------------------------------------------------------- invariant

  /** Program points inside the refresh lock. */
  predicate Inside(pc: Pc) {
    pc.SecondLook? || pc.BeforeFetch? || pc.Fetching? || pc.Storing?
  }

  /** Past the second look: nothing fresh was there, and nobody else can store meanwhile. */
  predicate Committed(pc: Pc) {
    pc.BeforeFetch? || pc.Fetching? || pc.Storing?
  }

  ghost predicate TasksInv(s: State) {
    && (s.refresher.Some? ==> Inside(PcOf(s, s.refresher.value)))
    && (forall t: nat :: Inside(PcOf(s, t)) ==> s.refresher == Some(t))
    && (forall t: nat :: Committed(PcOf(s, t)) ==> !Fresh(s))
    && (forall t: nat :: PcOf(s, t).Storing? ==> (t, PcOf(s, t).counts) in s.fetched)
  }

  ghost predicate WasFetched(s: State, counts: Counts) {
    exists t: nat :: (t, counts) in s.fetched
  }

  ghost predicate StoresInv(s: State) {
    && s.value == (if s.stores == [] then None else Some(s.stores[|s.stores| - 1]))
    && (forall i :: 0 <= i < |s.stores| ==> s.stores[i].at <= s.now)
    && (forall i, j :: 0 <= i < j < |s.stores| ==> s.stores[i].at + TTL <= s.stores[j].at)
    && (forall i :: 0 <= i < |s.stores| ==> WasFetched(s, s.stores[i].counts))
  }

  /** The pairs answered from a fetch, in order. */
  function FetchAnswers(answers: seq<Answer>): seq<Counts> {
    if answers == [] then []
    else
      var last := answers[|answers| - 1];
      FetchAnswers(answers[..|answers| - 1]) + if last.FromFetch? then [last.counts] else []
  }

  function StoredCounts(stores: seq<Cached>): seq<Counts> {
    if stores == [] then [] else StoredCounts(stores[..|stores| - 1]) + [stores[|stores| - 1].counts]
  }

  /** Every pair answered from a fetch has been stored, and nothing else has. */
  ghost predicate StoredAll(s: State) {
    FetchAnswers(s.answers) == StoredCounts(s.stores)
  }

  lemma AnswerAdded(answers: seq<Answer>, a: Answer)
    ensures FetchAnswers(answers + [a]) == FetchAnswers(answers) + if a.FromFetch? then [a.counts] else []
  {
    assert (answers + [a])[..|answers|] == answers;
  }

  lemma StoreAdded(stores: seq<Cached>, c: Cached)
    ensures StoredCounts(stores + [c]) == StoredCounts(stores) + [c.counts]
  {
    assert (stores + [c])[..|stores|] == stores;
  }

  lemma StoredAllKept(s: State, step: Step)
    requires StoredAll(s) && Enabled(s, step)
    ensures StoredAll(Next(s, step))
  {
    hide FetchAnswers, StoredCounts;
    match step
    case Store(t) =>
      var entry := Cached(s.now, PcOf(s, t).counts);
      AnswerAdded(s.answers, FromFetch(t, entry.counts));
      StoreAdded(s.stores, entry);
    case Look(t) =>
      if Fresh(s) {
        AnswerAdded(s.answers, FromCache(t, s.value.value.counts, s.value.value.at, s.now));
        assert FetchAnswers(s.answers) + [] == FetchAnswers(s.answers);
      }
    case _ =>
      assert Next(s, step).answers == s.answers && Next(s, step).stores == s.stores;
  }

  /** The caller fetched the pair itself, or it was stored less than ten seconds before being read. */
  ghost predicate Justified(s: State, a: Answer) {
    match a
    case FromFetch(t, counts) => (t, counts) in s.fetched
    case FromCache(_, counts, storedAt, readAt) =>
      Cached(storedAt, counts) in s.stores && storedAt <= readAt < storedAt + TTL
  }

  /** Each fetch began at least ten seconds after every store then made. */
  ghost predicate FetchesInv(s: State) {
    forall k :: 0 <= k < |s.fetchStarts| ==> WellSpaced(s, s.fetchStarts[k])
  }

  ghost predicate WellSpaced(s: State, f: FetchStart) {
    f.storesBefore <= |s.stores| && forall i :: 0 <= i < f.storesBefore ==> s.stores[i].at + TTL <= f.at
  }

  ghost predicate Inv(s: State) {
    && TasksInv(s) && StoresInv(s) && FetchesInv(s) && StoredAll(s)
    && (forall i :: 0 <= i < |s.answers| ==> Justified(s, s.answers[i]))
  }

  /** With nothing fresh cached, ten seconds have passed since every store. */
  lemma StaleMeansApart(s: State)
    requires StoresInv(s) && !Fresh(s)
    ensures forall i :: 0 <= i < |s.stores| ==> s.stores[i].at + TTL <= s.now
  {
    if s.stores != [] {
      var last := |s.stores| - 1;
      forall i | 0 <= i < |s.stores|
        ensures s.stores[i].at + TTL <= s.now
      {
        if i < last {
          assert s.stores[i].at + TTL <= s.stores[last].at;
        }
      }
    }
  }

  lemma TasksKept(s: State, step: Step)
    requires TasksInv(s) && Enabled(s, step)
    ensures TasksInv(Next(s, step))
  {
    var s' := Next(s, step);
    assert step.Tick? || (Inside(PcOf(s, step.t)) ==> s.refresher == Some(step.t));
    forall t: nat | Inside(PcOf(s', t))
      ensures s'.refresher == Some(t)
      ensures Committed(PcOf(s', t)) ==> !Fresh(s')
      ensures PcOf(s', t).Storing? ==> (t, PcOf(s', t).counts) in s'.fetched
    {
      assert Inside(PcOf(s, t)) ==> s.refresher == Some(t);
      assert Committed(PcOf(s, t)) ==> !Fresh(s);
    }
  }

  lemma StoresKept(s: State, step: Step)
    requires TasksInv(s) && StoresInv(s) && Enabled(s, step)
    ensures StoresInv(Next(s, step))
  {
    if step.Store? {
      assert Committed(PcOf(s, step.t));
      StaleMeansApart(s);
      assert (step.t, PcOf(s, step.t).counts) in s.fetched;
    } else {
      var s' := Next(s, step);
      assert s'.stores == s.stores && s'.value == s.value && s.now <= s'.now && s.fetched <= s'.fetched;
      forall i | 0 <= i < |s'.stores|
        ensures WasFetched(s', s'.stores[i].counts)
      {
        assert WasFetched(s, s.stores[i].counts);
      }
    }
  }

  lemma FetchesKept(s: State, step: Step)
    requires Inv(s) && Enabled(s, step)
    ensures FetchesInv(Next(s, step))
  {
    var s' := Next(s, step);
    if step.Start? {
      assert Committed(PcOf(s, step.t));
      StaleMeansApart(s);
    }
    forall k | 0 <= k < |s'.fetchStarts|
      ensures WellSpaced(s', s'.fetchStarts[k])
    {
      if k < |s.fetchStarts| {
        assert WellSpaced(s, s.fetchStarts[k]);
      }
    }
  }

  lemma AnswersKept(s: State, step: Step)
    requires Inv(s) && Enabled(s, step)
    ensures forall i :: 0 <= i < |Next(s, step).answers| ==> Justified(Next(s, step), Next(s, step).answers[i])
  {
    var s' := Next(s, step);
    forall i | 0 <= i < |s'.answers|
      ensures Justified(s', s'.answers[i])
    {
      if i < |s.answers| {
        assert Justified(s, s.answers[i]);
        assert forall c :: c in s.stores ==> c in s'.stores;
      } else if step.Look? {
        assert s.value.value == s.stores[|s.stores| - 1];
      }
    }
  }

  lemma {:induction false} RunsKeepInv(s: State, steps: seq<Step>)
    requires Inv(s) && Legal(s, steps)
    ensures Inv(After(s, steps))
    decreases |steps|
  {
    if steps != [] {
      TasksKept(s, steps[0]);
      StoresKept(s, steps[0]);
      FetchesKept(s, steps[0]);
      AnswersKept(s, steps[0]);
      StoredAllKept(s, steps[0]);
      hide Next, Inv, Enabled;
      assert Inv(Next(s, steps[0]));
      RunsKeepInv(Next(s, steps[0]), steps[1..]);
    }
  }

  /** A look answers exactly when a pair was stored less than 10,000 milliseconds before. */
  lemma LookExact(s: State, t: nat)
    requires Enabled(s, Look(t))
    ensures var s' := Next(s, Look(t));
      if s.value.Some? && s.now < s.value.value.at + 10_000 then
        var stored := s.value.value;
        PcOf(s', t) == Idle && s'.answers == s.answers + [FromCache(t, stored.counts, stored.at, s.now)]
      else
        PcOf(s', t) == (if PcOf(s, t) == FirstLook then WaitRefresh else BeforeFetch) && s'.answers == s.answers
  {
  }

  /** A step a caller takes by itself. */
  predicate IsOwnStep(step: Step) {
    !step.Tick? && !step.Drop? && !step.Call?
  }

  /** Nobody waits for ever: while some caller is inside, some caller can go on. */
  lemma SomeoneCanGo(s: State, t: nat) returns (step: Step)
    requires TasksInv(s) && PcOf(s, t) != Idle
    ensures IsOwnStep(step) && Enabled(s, step)
  {
    var u := if PcOf(s, t) == WaitRefresh && s.refresher.Some? then s.refresher.value else t;
    match PcOf(s, u)
    case FirstLook => step := Look(u);
    case WaitRefresh => step := Lock(u);
    case SecondLook => step := Look(u);
    case BeforeFetch => step := Start(u);
    case Fetching => step := FetchFail(u);
    case Storing(_) => step := Store(u);
  }

  /**
   Over any run of any number of callers: at most one fetch is in flight, stores are at least
   10,000 milliseconds apart and no fetch begins sooner after one; every answer is the caller's
   own fetch or a stored pair less than 10,000 milliseconds old when read; what is stored is what
   was answered from fetches, in order; and while some caller is inside, some caller can go on.
   */
  lemma EveryRunIsSafe(now: int, steps: seq<Step>)
    requires Legal(Begin(now), steps)
    ensures var s := After(Begin(now), steps);
      && (forall t: nat, u: nat :: PcOf(s, t).Fetching? && PcOf(s, u).Fetching? ==> t == u)
      && (forall i, j :: 0 <= i < j < |s.stores| ==> s.stores[i].at + 10_000 <= s.stores[j].at)
      && (forall k, i :: 0 <= k < |s.fetchStarts| && 0 <= i < s.fetchStarts[k].storesBefore ==>
            s.fetchStarts[k].storesBefore <= |s.stores| && s.stores[i].at + 10_000 <= s.fetchStarts[k].at)
      && (forall i :: 0 <= i < |s.answers| ==> Answered(s, s.answers[i]))
      && (forall i :: 0 <= i < |s.stores| ==> WasFetched(s, s.stores[i].counts))
      && FetchAnswers(s.answers) == StoredCounts(s.stores)
      && (forall t: nat :: PcOf(s, t) != Idle ==> exists step :: IsOwnStep(step) && Enabled(s, step))
  {
    RunsKeepInv(Begin(now), steps);
    var s := After(Begin(now), steps);
    hide After, Legal, FetchAnswers, StoredCounts;
    assert forall k :: 0 <= k < |s.fetchStarts| ==> WellSpaced(s, s.fetchStarts[k]);
    assert forall i :: 0 <= i < |s.answers| ==> Justified(s, s.answers[i]);
    forall t: nat | PcOf(s, t) != Idle
      ensures exists step :: IsOwnStep(step) && Enabled(s, step)
    {
      var step := SomeoneCanGo(s, t);
    }
  }

  /** The caller's own fetch, or a stored pair less than 10,000 milliseconds old. */
  ghost predicate Answered(s: State, a: Answer) {
    match a
    case FromFetch(t, counts) => (t, counts) in s.fetched
    case FromCache(_, counts, storedAt, readAt) =>
      Cached(storedAt, counts) in s.stores && storedAt <= readAt < storedAt + 10_000
  }

  /** So a span of time sees at most one store for each ten seconds, and one more. */
  lemma {:induction false} StoreRate(stores: seq<Cached>, from: int, to: int)
    requires forall i, j :: 0 <= i < j < |stores| ==> stores[i].at + TTL <= stores[j].at
    requires forall i :: 0 <= i < |stores| ==> from <= stores[i].at <= to
    ensures |stores| > 0 ==> (|stores| - 1) * TTL <= to - from
  {
    if |stores| > 1 {
      var front := stores[..|stores| - 1];
      var last := stores[|stores| - 1];
      StoreRate(front, from, last.at - TTL);
    }
  }
}
