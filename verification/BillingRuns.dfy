/**
 Interleaved requests on one key. Each request increments the counter, then past the limit
 reads the clock, reads the stored start, rolls, and perhaps writes a start: each its own step.
 Commands may fail, a request may be dropped at any wait, and time passes between steps.
 */
module BillingRuns {
  import opened Bytes
  import opened Billing

  datatype Outcome =
    | Within(usage: nat)
    | Allowed(at: int)
    | Refused
    | Dropped

  datatype Pc =
    | OverLimit(usage: nat)
    | Clocked(usage: nat, at: int)
    | Seen(usage: nat, at: int, start: Option<int>)
    | Writing(at: int)
    | Done(outcome: Outcome)

  /**
   `lost` and `blind` are the requests whose increment, or whose read of the start, failed;
   `crossed` is the time the counter passed the limit, `firstWrite` that of the first start written.
   */
  datatype State = State(
    now: int,
    usage: nat,
    graceStart: Option<int>,
    tasks: map<nat, Pc>,
    lost: set<nat>,
    blind: set<nat>,
    crossed: Option<int>,
    firstWrite: Option<int>)

  datatype Step =
    | Tick(delta: nat)
    | Count(t: nat, increment: Increment)
    | Clock(t: nat)
    | Read(t: nat, ok: bool)
    | Roll(t: nat, roll: real)
    | Write(t: nat, ok: bool)
    | Drop(t: nat)

  predicate Enabled(s: State, step: Step) {
    match step
    case Tick(_) => true
    case Count(t, _) => t !in s.tasks
    case Clock(t) => t in s.tasks && s.tasks[t].OverLimit?
    case Read(t, _) => t in s.tasks && s.tasks[t].Clocked?
    case Roll(t, _) => t in s.tasks && s.tasks[t].Seen?
    case Write(t, _) => t in s.tasks && s.tasks[t].Writing?
    case Drop(t) => t in s.tasks && !s.tasks[t].Done?
  }

  function At(s: State, t: nat, pc: Pc): State {
    s.(tasks := s.tasks[t := pc])
  }

  function CountStep(s: State, t: nat, i: Increment): State {
    var usage := Incremented(Record(s.usage, s.graceStart), i).usage;
    var seen := if i.Counted? then usage else 0;
    At(s, t, if seen <= LIMIT then Done(Within(seen)) else OverLimit(seen)).(
      usage := usage,
      lost := if i.Counted? then s.lost else s.lost + {t},
      crossed := if s.crossed.None? && usage > LIMIT then Some(s.now) else s.crossed)
  }

  function RollStep(s: State, t: nat, roll: real): State
    requires Enabled(s, Roll(t, roll))
  {
    var pc := s.tasks[t];
    match EvaluateQuotaDecision(pc.usage, pc.at, pc.start, roll)
    case GraceAllowed(Some(start)) => At(s, t, Writing(start))
    case GraceAllowed(None) => At(s, t, Done(Allowed(pc.at)))
    case WithinLimit => At(s, t, Done(Within(pc.usage)))
    case _ => At(s, t, Done(Refused))
  }

  function WriteStep(s: State, t: nat, ok: bool): State
    requires Enabled(s, Write(t, ok))
  {
    var start := s.tasks[t].at;
    var s' := At(s, t, Done(Allowed(start)));
    var first := if s.firstWrite.None? then Some(s.now) else s.firstWrite;
    if ok then s'.(graceStart := Some(start), firstWrite := first) else s'
  }

  function Next(s: State, step: Step): State
    requires Enabled(s, step)
  {
    match step
    case Tick(delta) => s.(now := s.now + delta)
    case Count(t, i) => CountStep(s, t, i)
    case Clock(t) => At(s, t, Clocked(s.tasks[t].usage, s.now))
    case Read(t, ok) =>
      At(s, t, Seen(s.tasks[t].usage, s.tasks[t].at, if ok then s.graceStart else None)).(
        blind := if ok then s.blind else s.blind + {t})
    case Roll(t, roll) => RollStep(s, t, roll)
    case Write(t, ok) => WriteStep(s, t, ok)
    case Drop(t) => At(s, t, Done(Dropped))
  }

  function Begin(now: int): State {
    State(now, 0, None, map[], {}, {}, None, None)
  }

  predicate Legal(s: State, steps: seq<Step>)
    decreases |steps|, 0
  {
    steps == [] || (Legal(s, steps[..|steps| - 1]) && Enabled(After(s, steps[..|steps| - 1]), steps[|steps| - 1]))
  }

  function After(s: State, steps: seq<Step>): State
    requires Legal(s, steps)
    decreases |steps|, 1
  {
    if steps == [] then s else Next(After(s, steps[..|steps| - 1]), steps[|steps| - 1])
  }

  // ---------------------------------------------------------------- the free tier

  predicate IsWithin(pc: Pc) {
    pc.Done? && pc.outcome.Within?
  }

  /** The requests answered within the limit. */
  function WithinTasks(tasks: map<nat, Pc>): set<nat> {
    set t | t in tasks && IsWithin(tasks[t])
  }

  function FreeUsage(usage: nat): nat {
    if usage <= LIMIT then usage else LIMIT
  }

  /** Only requests past the limit go beyond the counter. */
  predicate PastLimit(pc: Pc) {
    pc.OverLimit? || pc.Clocked? || pc.Seen? ==> pc.usage > LIMIT
  }

  /** All within answers but the lost ones are paid for by n counted requests. */
  ghost predicate Paid(within: set<nat>, lost: set<nat>, n: nat) {
    lost <= within && |within - lost| <= n && (lost == {} ==> |within| == n)
  }

  ghost predicate QuotaInv(s: State) {
    && (forall t :: t in s.tasks ==> PastLimit(s.tasks[t]))
    && Paid(WithinTasks(s.tasks), s.lost, FreeUsage(s.usage))
  }

  lemma WithinAt(tasks: map<nat, Pc>, t: nat, pc: Pc)
    ensures WithinTasks(tasks[t := pc]) == if IsWithin(pc) then WithinTasks(tasks) + {t} else WithinTasks(tasks) - {t}
  {
  }

  lemma PaidAdds(within: set<nat>, lost: set<nat>, n: nat, t: nat)
    requires Paid(within, lost, n) && t !in within
    ensures Paid(within + {t}, lost, n + 1)
    ensures forall m: nat :: n <= m ==> Paid(within + {t}, lost + {t}, m)
  {
    assert within + {t} - lost == (within - lost) + {t};
    assert within + {t} - (lost + {t}) == within - lost;
    assert t in lost + {t};
  }

  /** One request moves, by itself or while counting. */
  lemma TaskMoves(s: State, step: Step)
    requires QuotaInv(s) && Enabled(s, step) && !step.Tick?
    ensures var s' := Next(s, step);
      && step.t in s'.tasks && s'.tasks == s.tasks[step.t := s'.tasks[step.t]] && PastLimit(s'.tasks[step.t])
      && (!step.Count? ==>
            && s'.lost == s.lost && s'.usage == s.usage
            && step.t in s.tasks && !IsWithin(s.tasks[step.t]) && !IsWithin(s'.tasks[step.t]))
      && (step.Count? ==>
            && step.t !in s.tasks && s.usage <= s'.usage
            && (step.increment.Counted? ==>
                  && s'.lost == s.lost && s'.usage == s.usage + 1
                  && (IsWithin(s'.tasks[step.t]) <==> s.usage < LIMIT))
            && (step.increment.Lost? ==> s'.lost == s.lost + {step.t} && IsWithin(s'.tasks[step.t])))
  {
    assert !step.Count? ==> PastLimit(s.tasks[step.t]);
  }

  lemma PaidKept(w: set<nat>, w': set<nat>, lost: set<nat>, lost': set<nat>, usage: nat, usage': nat, t: nat)
    requires Paid(w, lost, FreeUsage(usage)) && t !in w
    requires
      || (w' == w && lost' == lost && FreeUsage(usage') == FreeUsage(usage))
      || (w' == w + {t} && lost' == lost && FreeUsage(usage') == FreeUsage(usage) + 1)
      || (w' == w + {t} && lost' == lost + {t} && FreeUsage(usage) <= FreeUsage(usage'))
    ensures Paid(w', lost', FreeUsage(usage'))
  {
    PaidAdds(w, lost, FreeUsage(usage), t);
    hide Paid, FreeUsage;
  }

  /** The same on maps of tasks. */
  lemma MoveKept(tasks: map<nat, Pc>, t: nat, pc: Pc, lost: set<nat>, lost': set<nat>, usage: nat, usage': nat)
    requires Paid(WithinTasks(tasks), lost, FreeUsage(usage)) && (t in tasks ==> !IsWithin(tasks[t]))
    requires
      || (!IsWithin(pc) && lost' == lost && FreeUsage(usage') == FreeUsage(usage))
      || (IsWithin(pc) && lost' == lost && FreeUsage(usage') == FreeUsage(usage) + 1)
      || (IsWithin(pc) && lost' == lost + {t} && FreeUsage(usage) <= FreeUsage(usage'))
    ensures Paid(WithinTasks(tasks[t := pc]), lost', FreeUsage(usage'))
  {
    hide Paid, WithinTasks, FreeUsage, IsWithin;
    var w := WithinTasks(tasks);
    WithinAt(tasks, t, pc);
    NotWithin(tasks, t);
    assert w - {t} == w;
    PaidKept(w, WithinTasks(tasks[t := pc]), lost, lost', usage, usage', t);
  }

  lemma QuotaKept(s: State, step: Step)
    requires QuotaInv(s) && Enabled(s, step)
    ensures QuotaInv(Next(s, step))
  {
    if !step.Tick? {
      TaskMoves(s, step);
      var s' := Next(s, step);
      hide Next, Enabled, Paid, WithinTasks, PastLimit, IsWithin;
      MoveKept(s.tasks, step.t, s'.tasks[step.t], s.lost, s'.lost, s.usage, s'.usage);
    }
  }

  lemma NotWithin(tasks: map<nat, Pc>, t: nat)
    requires t in tasks ==> !IsWithin(tasks[t])
    ensures t !in WithinTasks(tasks)
  {
  }

  // ---------------------------------------------------------------- the grace period

  /** A clock reading taken since the counter passed the limit. */
  predicate Reading(s: State, at: int) {
    s.crossed.Some? && s.crossed.value <= at <= s.now
  }

  /** Taken before the first start was written. */
  predicate Early(s: State, at: int) {
    s.firstWrite.Some? ==> at <= s.firstWrite.value
  }

  predicate TaskInv(s: State, pc: Pc) {
    match pc
    case OverLimit(usage) => usage > LIMIT && s.crossed.Some?
    case Clocked(usage, at) => usage > LIMIT && Reading(s, at)
    case Seen(usage, at, start) =>
      && usage > LIMIT && Reading(s, at)
      && (match start
          case None => Early(s, at)
          case Some(g) => Reading(s, g) && s.firstWrite.Some? && g <= s.firstWrite.value)
    case Writing(at) => Reading(s, at) && Early(s, at)
    case Done(Allowed(at)) => Reading(s, at) && (s.firstWrite.Some? ==> at < s.firstWrite.value + GRACE_SECONDS)
    case Done(_) => true
  }

  ghost predicate StartInv(s: State) {
    && (s.firstWrite.Some? <==> s.graceStart.Some?)
    && (s.firstWrite.Some? ==> s.firstWrite.value <= s.now && s.graceStart.value <= s.firstWrite.value)
    && (s.graceStart.Some? ==> Reading(s, s.graceStart.value))
    && (s.crossed.Some? <==> s.usage > LIMIT)
    && (s.crossed.Some? ==> s.crossed.value <= s.now)
  }

  /** Holds as long as no read of the start has failed. */
  ghost predicate GraceInv(s: State) {
    StartInv(s) && forall t :: t in s.tasks ==> TaskInv(s, s.tasks[t])
  }

  /** What an invariant of a waiting task needs of later states: time goes on, the marks stay. */
  lemma TaskInvStable(s: State, s': State, pc: Pc)
    requires TaskInv(s, pc) && s.now <= s'.now
    requires s.crossed.Some? ==> s'.crossed == s.crossed
    requires s'.firstWrite == s.firstWrite || (s.firstWrite.None? && s'.firstWrite == Some(s.now))
    ensures TaskInv(s', pc)
  {
  }

  lemma StepMoves(s: State, step: Step)
    requires StartInv(s) && Enabled(s, step)
    ensures var s' := Next(s, step);
      && s.now <= s'.now
      && (s.crossed.Some? ==> s'.crossed == s.crossed)
      && (s'.firstWrite == s.firstWrite || (s.firstWrite.None? && s'.firstWrite == Some(s.now)))
      && (forall t :: t in s'.tasks && (step.Tick? || t != step.t) ==> t in s.tasks && s.tasks[t] == s'.tasks[t])
  {
  }

  lemma FailedReadIsBlind(s: State, step: Step)
    requires Enabled(s, step) && step.Read? && !step.ok
    ensures step.t in Next(s, step).blind
  {
  }

  lemma OwnTaskKept(s: State, step: Step)
    requires GraceInv(s) && Enabled(s, step) && Next(s, step).blind == {} && !step.Tick?
    ensures step.t in Next(s, step).tasks && TaskInv(Next(s, step), Next(s, step).tasks[step.t])
  {
    if !step.Count? {
      assert TaskInv(s, s.tasks[step.t]);
    }
    if step.Read? && !step.ok {
      FailedReadIsBlind(s, step);
    }
  }

  lemma StartKept(s: State, step: Step)
    requires GraceInv(s) && Enabled(s, step)
    ensures StartInv(Next(s, step))
  {
    if step.Write? {
      assert TaskInv(s, s.tasks[step.t]);
    }
  }

  lemma GraceKept(s: State, step: Step)
    requires GraceInv(s) && Enabled(s, step) && Next(s, step).blind == {}
    ensures GraceInv(Next(s, step))
  {
    var s' := Next(s, step);
    StartKept(s, step);
    StepMoves(s, step);
    if !step.Tick? {
      OwnTaskKept(s, step);
    }
    hide Next, StartInv, TaskInv;
    forall t | t in s'.tasks
      ensures TaskInv(s', s'.tasks[t])
    {
      if step.Tick? || t != step.t {
        assert TaskInv(s, s.tasks[t]);
        TaskInvStable(s, s', s.tasks[t]);
      }
    }
  }

  // ---------------------------------------------------------------- every run

  lemma BlindGrows(s: State, step: Step)
    requires Enabled(s, step)
    ensures s.blind <= Next(s, step).blind
  {
  }

  lemma {:induction false} RunsKeepInv(now: int, steps: seq<Step>)
    requires Legal(Begin(now), steps)
    ensures QuotaInv(After(Begin(now), steps))
    ensures After(Begin(now), steps).blind == {} ==> GraceInv(After(Begin(now), steps))
  {
    if steps == [] {
      assert WithinTasks(Begin(now).tasks) == {};
    } else {
      var front, step := steps[..|steps| - 1], steps[|steps| - 1];
      RunsKeepInv(now, front);
      var s := After(Begin(now), front);
      assert After(Begin(now), steps) == Next(s, step);
      hide Next, QuotaInv, GraceInv, After, Enabled;
      QuotaKept(s, step);
      BlindGrows(s, step);
      if Next(s, step).blind == {} {
        GraceKept(s, step);
      }
    }
  }

  /**
   Any interleaving: at most 50,000 requests per key are answered within the limit, one more
   for each lost increment, and exactly the first 50,000 counted when none is lost.
   */
  lemma QuotaOverRuns(now: int, steps: seq<Step>)
    requires Legal(Begin(now), steps)
    ensures var s := After(Begin(now), steps);
      && |WithinTasks(s.tasks)| <= 50_000 + |s.lost|
      && (s.lost == {} ==> |WithinTasks(s.tasks)| == if s.usage <= 50_000 then s.usage else 50_000)
  {
    RunsKeepInv(now, steps);
    var s := After(Begin(now), steps);
    hide After, Legal, WithinTasks;
    assert WithinTasks(s.tasks) == (WithinTasks(s.tasks) - s.lost) + s.lost;
  }

  /**
   Any interleaving in which no read of the start fails: every request past the limit that
   passes took its clock reading after the limit was crossed and less than 24 hours after the
   first start was written; the stored start lies between those two times, whoever wrote last.
   */
  lemma GraceOverRuns(now: int, steps: seq<Step>, t: nat)
    requires Legal(Begin(now), steps) && After(Begin(now), steps).blind == {}
    ensures var s := After(Begin(now), steps);
      && (t in s.tasks && s.tasks[t].Done? && s.tasks[t].outcome.Allowed? ==>
            && s.crossed.Some? && s.crossed.value <= s.tasks[t].outcome.at
            && (s.firstWrite.Some? ==> s.tasks[t].outcome.at < s.firstWrite.value + 86400))
      && (s.graceStart.Some? ==>
            && s.crossed.Some? && s.firstWrite.Some?
            && s.crossed.value <= s.graceStart.value <= s.firstWrite.value)
  {
    RunsKeepInv(now, steps);
    var s := After(Begin(now), steps);
    hide After, Legal;
    if t in s.tasks {
      assert TaskInv(s, s.tasks[t]);
    }
  }

  // ---------------------------------------------------------------- uninterrupted requests

  /** One request from its first step to its last with nothing in between. */
  function Alone(s: State, t: nat, r: Request): State
    requires t !in s.tasks
  {
    var counted := CountStep(s, t, r.increment);
    if counted.tasks[t].Done? then counted
    else
      var clocked := Next(counted, Clock(t));
      var seen := Next(clocked, Read(t, r.readOk));
      var rolled := Next(seen, Roll(t, r.roll));
      if rolled.tasks[t].Writing? then Next(rolled, Write(t, r.writeOk)) else rolled
  }

  /** The steps of one request, uninterrupted, are the one-at-a-time request. */
  lemma AloneIsTrack(s: State, t: nat, r: Request)
    requires t !in s.tasks && r.now == s.now
    ensures var s' := Alone(s, t, r);
      var (rec, reply) := Track(Record(s.usage, s.graceStart), r);
      && Record(s'.usage, s'.graceStart) == rec
      && t in s'.tasks && s'.tasks[t].Done?
      && (reply.Ok? <==> s'.tasks[t].outcome.Within? || s'.tasks[t].outcome.Allowed?)
      && (reply.Ok? && reply.usage <= LIMIT <==> s'.tasks[t].outcome.Within?)
  {
  }

  // ---------------------------------------------------------------- interleaving moves the start

  /** n counted requests, by tasks 0 to n-1. */
  function Fill(n: nat): seq<Step> {
    if n == 0 then [] else Fill(n - 1) + [Count(n - 1, Counted)]
  }

  lemma AfterSnoc(s: State, steps: seq<Step>, step: Step)
    requires Legal(s, steps) && Enabled(After(s, steps), step)
    ensures Legal(s, steps + [step]) && After(s, steps + [step]) == Next(After(s, steps), step)
  {
    assert (steps + [step])[..|steps|] == steps;
  }

  lemma {:induction false} Filled(n: nat)
    requires n <= LIMIT
    ensures Legal(Begin(0), Fill(n))
    ensures var s := After(Begin(0), Fill(n));
      && s.usage == n && s.now == 0 && s.graceStart == None == s.firstWrite == s.crossed && s.lost == {} == s.blind
      && forall t :: t in s.tasks ==> t < n
  {
    if n > 0 {
      Filled(n - 1);
      AfterSnoc(Begin(0), Fill(n - 1), Count(n - 1, Counted));
    }
  }

  /** Two requests that both read no start: the later write replaces the earlier start. */
  function Race(): seq<Step> {
    [Count(LIMIT, Counted), Count(LIMIT + 1, Counted), Clock(LIMIT), Tick(5), Clock(LIMIT + 1),
     Read(LIMIT, true), Read(LIMIT + 1, true), Roll(LIMIT, 0.0), Roll(LIMIT + 1, 0.0), Write(LIMIT, true)]
  }

  /** The first racer after k steps, and the second. */
  function First(k: nat): Pc {
    if k < 3 then OverLimit(LIMIT + 1) else if k < 6 then Clocked(LIMIT + 1, 0)
    else if k < 8 then Seen(LIMIT + 1, 0, None) else if k < 10 then Writing(0) else Done(Allowed(0))
  }

  function Second(k: nat): Pc {
    if k < 5 then OverLimit(LIMIT + 2) else if k < 7 then Clocked(LIMIT + 2, 5)
    else if k < 9 then Seen(LIMIT + 2, 5, None) else Writing(5)
  }

  lemma {:induction false} RaceReached(k: nat)
    requires k <= 10
    ensures Legal(Begin(0), Fill(LIMIT) + Race()[..k])
    ensures var s := After(Begin(0), Fill(LIMIT) + Race()[..k]);
      && s.usage == LIMIT + (if k < 2 then k else 2)
      && s.now == (if k < 4 then 0 else 5)
      && s.graceStart == (if k < 10 then None else Some(0))
      && s.blind == {}
      && (forall t :: t in s.tasks ==> t < s.usage)
      && (1 <= k ==> LIMIT in s.tasks && s.tasks[LIMIT] == First(k))
      && (2 <= k ==> LIMIT + 1 in s.tasks && s.tasks[LIMIT + 1] == Second(k))
  {
    hide Fill, After, Legal;
    if k == 0 {
      Filled(LIMIT);
      assert Fill(LIMIT) + Race()[..0] == Fill(LIMIT);
    } else {
      RaceReached(k - 1);
      var before := Fill(LIMIT) + Race()[..k - 1];
      assert Fill(LIMIT) + Race()[..k] == before + [Race()[k - 1]];
      AfterSnoc(Begin(0), before, Race()[k - 1]);
    }
  }

  /** A step of a run that replaces a start, with every read successful. */
  ghost predicate MovesStart(steps: seq<Step>, step: Step) {
    && Legal(Begin(0), steps) && Enabled(After(Begin(0), steps), step)
    && After(Begin(0), steps).graceStart.Some?
    && Next(After(Begin(0), steps), step).graceStart != After(Begin(0), steps).graceStart
    && Next(After(Begin(0), steps), step).blind == {}
  }

  /** So a set start can change under interleaving, which one-at-a-time runs rule out. */
  lemma InterleavingMovesStart()
    ensures exists steps, step :: MovesStart(steps, step)
  {
    RaceReached(10);
    var steps := Fill(LIMIT) + Race()[..10];
    var step := Write(LIMIT + 1, true);
    hide Fill, After, Legal;
    assert MovesStart(steps, step);
  }

  /** A request past its read that saw no start and may still write one other than g. */
  predicate MayMove(pc: Pc, g: int) {
    || (pc.Writing? && pc.at != g)
    || (pc.Seen? && pc.start == None && pc.at != g)
  }

  ghost predicate Restless(s: State, g: int) {
    exists t :: t in s.tasks && MayMove(s.tasks[t], g)
  }

  /** Some continuation without a failed read changes the start. */
  ghost predicate CanMoveStart(now: int, steps: seq<Step>, g: int) {
    exists more :: MovesBy(now, steps, more, g)
  }

  ghost predicate MovesBy(now: int, steps: seq<Step>, more: seq<Step>, g: int) {
    Legal(Begin(now), steps + more) && After(Begin(now), steps + more).blind == {}
      && After(Begin(now), steps + more).graceStart != Some(g)
  }

  /** Without such a request no step changes the start or creates one. */
  lemma RestKept(s: State, step: Step, g: int)
    requires Enabled(s, step) && Next(s, step).blind == {} && s.graceStart == Some(g) && !Restless(s, g)
    ensures Next(s, step).graceStart == Some(g) && !Restless(Next(s, step), g)
  {
    var s' := Next(s, step);
    if step.Read? && !step.ok {
      FailedReadIsBlind(s, step);
    }
    assert !step.Tick? && step.t in s.tasks ==> !MayMove(s.tasks[step.t], g);
    forall t | t in s'.tasks
      ensures !MayMove(s'.tasks[t], g)
    {
      assert t in s.tasks ==> !MayMove(s.tasks[t], g);
    }
  }

  lemma {:induction false} RestKeepsStart(now: int, steps: seq<Step>, more: seq<Step>, g: int)
    requires Legal(Begin(now), steps + more) && After(Begin(now), steps + more).blind == {}
    requires Legal(Begin(now), steps)
    requires After(Begin(now), steps).graceStart == Some(g) && !Restless(After(Begin(now), steps), g)
    ensures var s := After(Begin(now), steps + more); s.graceStart == Some(g) && !Restless(s, g)
    decreases |more|
  {
    if more == [] {
      assert steps + more == steps;
    } else {
      var front, step := more[..|more| - 1], more[|more| - 1];
      var all := steps + more;
      assert all[..|all| - 1] == steps + front && all[|all| - 1] == step;
      var s := After(Begin(now), steps + front);
      assert After(Begin(now), all) == Next(s, step);
      hide Next, After, Legal, Restless, Enabled;
      BlindGrows(s, step);
      RestKeepsStart(now, steps, front, g);
      RestKept(s, step, g);
    }
  }

  /** From the write on, or from the roll on, such a request goes through. */
  lemma RestlessMoves(now: int, steps: seq<Step>, g: int, t: nat) returns (more: seq<Step>)
    requires Legal(Begin(now), steps) && After(Begin(now), steps).blind == {}
    requires t in After(Begin(now), steps).tasks && MayMove(After(Begin(now), steps).tasks[t], g)
    ensures MovesBy(now, steps, more, g)
  {
    RunsKeepInv(now, steps);
    var s := After(Begin(now), steps);
    assert PastLimit(s.tasks[t]);
    hide After, Legal;
    if s.tasks[t].Writing? {
      more := [Write(t, true)];
      AfterSnoc(Begin(now), steps, Write(t, true));
    } else {
      more := [Roll(t, 0.0), Write(t, true)];
      AfterSnoc(Begin(now), steps, Roll(t, 0.0));
      AfterSnoc(Begin(now), steps + [Roll(t, 0.0)], Write(t, true));
      assert steps + [Roll(t, 0.0)] + [Write(t, true)] == steps + more;
    }
  }

  /**
   Exactly when a stored start can still change without a failed read: when some request that
   saw none is on its way to write another.
   */
  lemma StartCanMoveIff(now: int, steps: seq<Step>, g: int)
    requires Legal(Begin(now), steps) && After(Begin(now), steps).blind == {}
    requires After(Begin(now), steps).graceStart == Some(g)
    ensures CanMoveStart(now, steps, g) <==> Restless(After(Begin(now), steps), g)
  {
    hide After, Legal, MayMove;
    var s := After(Begin(now), steps);
    if Restless(s, g) {
      var t :| t in s.tasks && MayMove(s.tasks[t], g);
      var more := RestlessMoves(now, steps, g, t);
    } else if CanMoveStart(now, steps, g) {
      var more :| MovesBy(now, steps, more, g);
      RestKeepsStart(now, steps, more, g);
    }
  }
}
