/**
 Recovery of Lightning payments: which stored intents an audit acts on, how it changes them,
 and what that means over whole runs of audits. Times are in microseconds, the resolution
 of the stored timestamps.
 */
module Lightning {
  import opened Bytes

  datatype Failure = Permanent | Transient | Indeterminate | MppPartial
  datatype Status = Pending | Succeeded | Failed | Recovering | MppSplitting
  datatype Action = RetryInitiated | SplitTriggered | ReconciliationRequested | StaleRecovery

  /** The part of an intent that recovery reads or writes. */
  datatype Intent = Intent(
    status: Status, failure: Option<Failure>, retries: int, createdAt: int, updatedAt: int)

  /** The clock as read for the age test, and as read again for the new timestamp. */
  datatype Reading = Reading(check: int, stamp: int)

  const SECOND := 1_000_000
  const PENDING_SECONDS := 300
  const SPLITTING_SECONDS := 600
  const MAX_RETRIES := 3

  predicate ValidTransition(current: Status, next: Status) {
    match current
    case Pending => next != Pending
    case MppSplitting => next == Succeeded || next == Failed || next == Recovering
    case Recovering => next == Succeeded || next == Failed || next == MppSplitting
    case Failed => next == Recovering || next == MppSplitting
    case Succeeded => false
  }

  /** Whole seconds of a duration, toward zero. */
  function NumSeconds(d: int): int {
    if d >= 0 then d / SECOND else -(-d / SECOND)
  }

  /** The increment of a 32-bit counter, which wraps. */
  function Wrap32(x: int): int {
    (x + 0x8000_0000) % 0x1_0000_0000 - 0x8000_0000
  }

  predicate ShouldRecover(p: Intent, check: int) {
    match p.status
    case Recovering => true
    case Failed => (p.failure == Some(Transient) && p.retries < MAX_RETRIES) || p.failure == Some(MppPartial)
    case Pending => NumSeconds(check - p.createdAt) > PENDING_SECONDS
    case MppSplitting => NumSeconds(check - p.updatedAt) > SPLITTING_SECONDS
    case Succeeded => false
  }

  /** What one audit does with an intent. */
  function ActionOf(p: Intent, check: int): Option<Action> {
    if !ShouldRecover(p, check) then None
    else
      match p.failure
      case Some(Transient) => Some(RetryInitiated)
      case Some(MppPartial) => Some(SplitTriggered)
      case Some(Indeterminate) => Some(ReconciliationRequested)
      case _ => if p.status == Pending then Some(StaleRecovery) else None
  }

  function Recovered(p: Intent, r: Reading): Intent {
    match ActionOf(p, r.check)
    case None => p
    case Some(a) =>
      p.(status := if a == SplitTriggered then MppSplitting else Recovering,
         retries := if a == RetryInitiated then Wrap32(p.retries + 1) else p.retries,
         updatedAt := r.stamp)
  }

  /** The intent as the audit holds it while deciding. */
  class PaymentIntent {
    var status: Status
    var failure: Option<Failure>
    var retries: int
    var createdAt: int
    var updatedAt: int

    constructor (p: Intent)
      ensures Value() == p
    {
      status, failure, retries, createdAt, updatedAt := p.status, p.failure, p.retries, p.createdAt, p.updatedAt;
    }

    function Value(): Intent
      reads this
    {
      Intent(status, failure, retries, createdAt, updatedAt)
    }

    method ProcessRecovery(r: Reading) returns (action: Option<Action>)
      modifies this
      ensures action == ActionOf(old(Value()), r.check)
      ensures Value() == Recovered(old(Value()), r)
    {
      if !ShouldRecover(Value(), r.check) {
        return None;
      }
      match failure {
        case Some(Transient) =>
          status, retries, updatedAt := Recovering, Wrap32(retries + 1), r.stamp;
          return Some(RetryInitiated);
        case Some(MppPartial) =>
          status, updatedAt := MppSplitting, r.stamp;
          return Some(SplitTriggered);
        case Some(Indeterminate) =>
          status, updatedAt := Recovering, r.stamp;
          return Some(ReconciliationRequested);
        case _ =>
          if status == Pending {
            status, updatedAt := Recovering, r.stamp;
            return Some(StaleRecovery);
          }
          return None;
      }
    }
  }

  // ---------------------------------------------------------------- one audit, one intent

  /** Ages are cut to whole seconds, so "more than n" starts a full second late. */
  lemma AgeInSeconds(d: int, n: nat)
    ensures NumSeconds(d) > n <==> d >= (n + 1) * SECOND
  {
  }

  /** Due for an audit: recovering; failed with a failure that is retried; or too long in another state. */
  predicate Due(p: Intent, check: int) {
    match p.status
    case Recovering => true
    case Pending => check - p.createdAt >= 301_000_000
    case MppSplitting => check - p.updatedAt >= 601_000_000
    case Failed => p.failure == Some(MppPartial) || (p.failure == Some(Transient) && p.retries < 3)
    case Succeeded => false
  }

  /** The action for each failure type, with ages in microseconds. */
  lemma ActionExact(p: Intent, check: int)
    ensures p.failure == Some(Transient) ==> ActionOf(p, check) == if Due(p, check) then Some(RetryInitiated) else None
    ensures p.failure == Some(MppPartial) ==> ActionOf(p, check) == if Due(p, check) then Some(SplitTriggered) else None
    ensures p.failure == Some(Indeterminate) ==>
      ActionOf(p, check) == if Due(p, check) then Some(ReconciliationRequested) else None
    ensures p.failure == None || p.failure == Some(Permanent) ==>
      ActionOf(p, check) == if p.status == Pending && Due(p, check) then Some(StaleRecovery) else None
  {
    AgeInSeconds(check - p.createdAt, 300);
    AgeInSeconds(check - p.updatedAt, 600);
    hide NumSeconds;
  }

  /** What each action does to the intent. */
  lemma RecoveredExact(p: Intent, r: Reading)
    requires -0x8000_0000 <= p.retries < 0x8000_0000
    ensures var q := Recovered(p, r);
      match ActionOf(p, r.check)
      case None => q == p
      case Some(RetryInitiated) =>
        var retries := if p.retries == 0x7FFF_FFFF then -0x8000_0000 else p.retries + 1;
        q == Intent(Recovering, p.failure, retries, p.createdAt, r.stamp)
      case Some(SplitTriggered) => q == Intent(MppSplitting, p.failure, p.retries, p.createdAt, r.stamp)
      case Some(_) => q == Intent(Recovering, p.failure, p.retries, p.createdAt, r.stamp)
  {
    hide ActionOf;
  }

  /** The twelve allowed transitions. */
  lemma TransitionsListed(a: Status, b: Status)
    ensures ValidTransition(a, b) <==> (a, b) in {
      (Pending, Succeeded), (Pending, Failed), (Pending, Recovering), (Pending, MppSplitting),
      (MppSplitting, Succeeded), (MppSplitting, Failed), (MppSplitting, Recovering),
      (Recovering, Succeeded), (Recovering, Failed), (Recovering, MppSplitting),
      (Failed, Recovering), (Failed, MppSplitting)}
  {
  }

  /** Every recovery step is an allowed transition or keeps the status; the rest is untouched. */
  lemma RecoveryIsValid(p: Intent, r: Reading)
    ensures var q := Recovered(p, r);
      && (q.status == p.status || ValidTransition(p.status, q.status))
      && q.failure == p.failure && q.createdAt == p.createdAt
      && (ActionOf(p, r.check).Some? ==> q.updatedAt == r.stamp && q.status in {Recovering, MppSplitting})
      && (p.status == Succeeded || (p.status == Failed && p.failure == Some(Permanent)) ==> q == p)
  {
  }

  /** Intents no audit will ever act on. */
  predicate Inert(p: Intent) {
    match p.status
    case Succeeded => true
    case Failed => p.failure != Some(MppPartial) && (p.failure == Some(Transient) ==> p.retries >= MAX_RETRIES)
    case Recovering => p.failure == None || p.failure == Some(Permanent)
    case MppSplitting => p.failure == None || p.failure == Some(Permanent)
    case Pending => false
  }

  /** Exactly the inert intents are never acted on, however late the audit. */
  lemma InertIff(p: Intent)
    ensures Inert(p) <==> forall check :: ActionOf(p, check) == None
  {
    if !Inert(p) {
      var late := (if p.createdAt < p.updatedAt then p.updatedAt else p.createdAt) + 601 * SECOND;
      AgeInSeconds(late - p.createdAt, PENDING_SECONDS);
      AgeInSeconds(late - p.updatedAt, SPLITTING_SECONDS);
      assert ActionOf(p, late) != None;
    }
  }

  // ---------------------------------------------------------------- runs of audits

  predicate Ordered(rs: seq<Reading>) {
    && (forall i :: 0 <= i < |rs| ==> rs[i].check <= rs[i].stamp)
    && (forall i, j :: 0 <= i < j < |rs| ==> rs[i].stamp <= rs[j].check)
  }

  function Audits(p: Intent, rs: seq<Reading>): Intent {
    if rs == [] then p else Recovered(Audits(p, rs[..|rs| - 1]), rs[|rs| - 1])
  }

  /** The action of the i-th audit. */
  function ActionAt(p: Intent, rs: seq<Reading>, i: nat): Option<Action>
    requires i < |rs|
  {
    ActionOf(Audits(p, rs[..i]), rs[i].check)
  }

  /** Failure type and creation time stay through audits; an inert intent stays altogether. */
  lemma {:induction false} AuditsKeep(p: Intent, rs: seq<Reading>)
    ensures Audits(p, rs).failure == p.failure && Audits(p, rs).createdAt == p.createdAt
    ensures Inert(p) ==> Audits(p, rs) == p
  {
    if rs != [] {
      var front := rs[..|rs| - 1];
      AuditsKeep(p, front);
      RecoveryIsValid(Audits(p, front), rs[|rs| - 1]);
      if Inert(p) {
        InertIff(p);
      }
    }
  }

  /** Once split, the intent stays splitting and its timestamp is that of the last split. */
  lemma {:induction false} SplittingSince(p: Intent, rs: seq<Reading>, i: nat)
    requires Ordered(rs) && p.failure == Some(MppPartial) && i < |rs| && ActionAt(p, rs, i) == Some(SplitTriggered)
    ensures var q := Audits(p, rs); q.status == MppSplitting && rs[i].stamp <= q.updatedAt
    decreases |rs|
  {
    hide Wrap32;
    var n := |rs| - 1;
    var front := rs[..n];
    AuditsKeep(p, front);
    if i < n {
      assert front[..i] == rs[..i];
      SplittingSince(p, front, i);
      assert rs[i].stamp <= rs[n].check;
    }
    hide Audits;
    assert Audits(p, rs) == Recovered(Audits(p, front), rs[n]) by {
      AuditsSnoc(p, rs);
    }
  }

  lemma AuditsSnoc(p: Intent, rs: seq<Reading>)
    requires rs != []
    ensures Audits(p, rs) == Recovered(Audits(p, rs[..|rs| - 1]), rs[|rs| - 1])
  {
  }

  /** Splits of one partially failed payment that only audits touch are at least 601 seconds apart. */
  lemma SplitsApart(p: Intent, rs: seq<Reading>, i: nat, j: nat)
    requires Ordered(rs) && p.failure == Some(MppPartial) && i < j < |rs|
    requires ActionAt(p, rs, i) == Some(SplitTriggered) && ActionAt(p, rs, j) == Some(SplitTriggered)
    ensures rs[i].stamp + 601_000_000 <= rs[j].check <= rs[j].stamp
  {
    var before := rs[..j];
    assert before[..i] == rs[..i];
    SplittingSince(p, before, i);
    AgeInSeconds(rs[j].check - Audits(p, before).updatedAt, SPLITTING_SECONDS);
  }

  lemma WrapSuccessor(x: int)
    ensures Wrap32(Wrap32(x) + 1) == Wrap32(x + 1)
  {
  }

  /** Left recovering from a transient failure, every audit counts one more retry. */
  lemma {:induction false} RetriesGrow(p: Intent, rs: seq<Reading>)
    requires p.status == Recovering && p.failure == Some(Transient) && p.retries == Wrap32(p.retries)
    ensures var q := Audits(p, rs);
      q.status == Recovering && q.failure == p.failure && q.retries == Wrap32(p.retries + |rs|)
  {
    hide Wrap32;
    if rs != [] {
      RetriesGrow(p, rs[..|rs| - 1]);
      WrapSuccessor(p.retries + |rs| - 1);
    }
  }

  // ---------------------------------------------------------------- runs with recorded outcomes

  /** An audit, or an outcome recorded by the payment's own handling: status and failure type. */
  datatype Event = Audit(reading: Reading) | Record(status: Status, failure: Option<Failure>, at: int)

  function Apply(p: Intent, e: Event): Intent {
    match e
    case Audit(r) => Recovered(p, r)
    case Record(status, failure, at) => p.(status := status, failure := failure, updatedAt := at)
  }

  function After(p: Intent, es: seq<Event>): Intent {
    if es == [] then p else Apply(After(p, es[..|es| - 1]), es[|es| - 1])
  }

  function Retries(p: Intent, es: seq<Event>): nat {
    if es == [] then 0
    else
      var last := es[|es| - 1];
      Retries(p, es[..|es| - 1]) +
      if last.Audit? && ActionOf(After(p, es[..|es| - 1]), last.reading.check) == Some(RetryInitiated) then 1 else 0
  }

  /** The counter is the number of retries initiated, whatever else happens, up to its width. */
  lemma {:induction false} RetriesCounted(p: Intent, es: seq<Event>)
    requires p.retries == Wrap32(p.retries)
    ensures After(p, es).retries == Wrap32(p.retries + Retries(p, es))
  {
    hide Wrap32;
    if es != [] {
      RetriesCounted(p, es[..|es| - 1]);
      WrapSuccessor(p.retries + Retries(p, es[..|es| - 1]));
    }
  }

  /** Every audit finds the payment recorded back to failed or succeeded. */
  predicate Settled(p: Intent, es: seq<Event>) {
    forall i :: 0 <= i < |es| && es[i].Audit? ==> After(p, es[..i]).status in {Failed, Succeeded}
  }

  /** Then no payment is retried more than three times. */
  lemma {:induction false} RetryBound(p: Intent, es: seq<Event>)
    requires 0 <= p.retries <= MAX_RETRIES && Settled(p, es)
    ensures p.retries <= After(p, es).retries <= MAX_RETRIES
    ensures After(p, es).retries == p.retries + Retries(p, es)
  {
    if es != [] {
      var front := es[..|es| - 1];
      assert Settled(p, front) by {
        forall i | 0 <= i < |front| && front[i].Audit?
          ensures After(p, front[..i]).status in {Failed, Succeeded}
        {
          assert front[..i] == es[..i] && front[i] == es[i];
        }
      }
      RetryBound(p, front);
    }
  }

  /** A transient failure retried three times and not recorded as failed, that an audit would retry again. */
  predicate Overdue(p: Intent, check: int) {
    p.failure == Some(Transient) && p.retries >= MAX_RETRIES && p.status != Failed && ShouldRecover(p, check)
  }

  /** The counter stays in bounds at every point of the run. */
  predicate StaysBounded(p: Intent, es: seq<Event>) {
    forall k :: 0 <= k <= |es| ==> BoundedAt(p, es, k)
  }

  predicate BoundedAt(p: Intent, es: seq<Event>, k: nat)
    requires k <= |es|
  {
    0 <= After(p, es[..k]).retries <= MAX_RETRIES
  }

  predicate NeverOverdue(p: Intent, es: seq<Event>) {
    forall i :: 0 <= i < |es| && es[i].Audit? ==> !Overdue(After(p, es[..i]), es[i].reading.check)
  }

  lemma BoundSnoc(p: Intent, es: seq<Event>)
    requires es != []
    ensures StaysBounded(p, es) <==>
      StaysBounded(p, es[..|es| - 1]) && 0 <= After(p, es).retries <= MAX_RETRIES
  {
    var n := |es| - 1;
    forall k | 0 <= k <= n
      ensures BoundedAt(p, es[..n], k) <==> BoundedAt(p, es, k)
    {
      assert es[..n][..k] == es[..k];
    }
    assert BoundedAt(p, es, n + 1) <==> 0 <= After(p, es).retries <= MAX_RETRIES by {
      assert es[..n + 1] == es;
    }
    hide After, BoundedAt;
  }

  lemma OverdueSnoc(p: Intent, es: seq<Event>)
    requires es != []
    ensures var front, last := es[..|es| - 1], es[|es| - 1];
      NeverOverdue(p, es) <==>
        NeverOverdue(p, front) && !(last.Audit? && Overdue(After(p, front), last.reading.check))
  {
    hide After, Overdue;
    var n := |es| - 1;
    var front := es[..n];
    assert forall k :: 0 <= k <= n ==> front[..k] == es[..k];
  }

  /** Exactly which runs keep the counter at most 3: those in which no audit finds such a payment. */
  lemma {:induction false} RetryBoundIff(p: Intent, es: seq<Event>)
    requires 0 <= p.retries <= MAX_RETRIES
    ensures StaysBounded(p, es) <==> NeverOverdue(p, es)
    ensures StaysBounded(p, es) ==> 0 <= After(p, es).retries <= MAX_RETRIES
    decreases |es|
  {
    if es == [] {
      assert es[..0] == [];
      assert BoundedAt(p, es, 0);
    } else {
      BoundSnoc(p, es);
      OverdueSnoc(p, es);
      assert After(p, es) == Apply(After(p, es[..|es| - 1]), es[|es| - 1]);
      hide After, Apply, Overdue, StaysBounded, NeverOverdue;
      var front, last := es[..|es| - 1], es[|es| - 1];
      RetryBoundIff(p, front);
      if StaysBounded(p, front) {
        StepBoundIff(After(p, front), last);
      }
    }
  }

  lemma StepBoundIff(p: Intent, e: Event)
    requires 0 <= p.retries <= MAX_RETRIES
    ensures 0 <= Apply(p, e).retries <= MAX_RETRIES <==> !(e.Audit? && Overdue(p, e.reading.check))
  {
  }

  // ---------------------------------------------------------------- the audit loop

  datatype Id = Id(text: string)

  datatype LoggedEvent = LoggedEvent(payment: Id, status: Status, action: Action)

  /** A row that does not decode or a statement that fails ends the audit; the event is written after the row. */
  datatype Fault = NoFault | RowUnreadable | UpdateFails | EventFails

  /** A selected row with the readings and the fault met while handling it. */
  datatype Visit = Visit(payment: Id, reading: Reading, fault: Fault)

  /** `UPDATE … SET status, retry_count, last_updated_at`: the failure type is left as stored. */
  function Written(stored: Intent, q: Intent): Intent {
    stored.(status := q.status, retries := q.retries, updatedAt := q.updatedAt)
  }

  /** The rows an audit selects, each once, in any order. */
  predicate Selects(intents: map<Id, Intent>, visits: seq<Visit>) {
    && Visited(intents, visits)
    && (forall i :: 0 <= i < |visits| ==> intents[visits[i].payment].status != Succeeded)
    && (forall i, j :: 0 <= i < j < |visits| ==> visits[i].payment != visits[j].payment)
    && (forall id :: id in intents && intents[id].status != Succeeded ==>
          exists i :: 0 <= i < |visits| && visits[i].payment == id)
  }

  predicate Acts(intents: map<Id, Intent>, v: Visit)
    requires v.payment in intents
  {
    ActionOf(intents[v.payment], v.reading.check).Some?
  }

  /** Every row is decoded; statements run, and fail, only for rows acted on. */
  predicate Breaks(intents: map<Id, Intent>, v: Visit)
    requires v.payment in intents
  {
    v.fault == RowUnreadable || (v.fault != NoFault && Acts(intents, v))
  }

  function RowAfter(intents: map<Id, Intent>, v: Visit): Intent
    requires v.payment in intents
  {
    Recovered(intents[v.payment], v.reading)
  }

  /** One event for each row acted on, in order. */
  function EventsOf(intents: map<Id, Intent>, visits: seq<Visit>): seq<LoggedEvent>
    requires Visited(intents, visits)
  {
    if visits == [] then []
    else
      var v := visits[|visits| - 1];
      EventsOf(intents, visits[..|visits| - 1]) +
      if Acts(intents, v)
      then [LoggedEvent(v.payment, RowAfter(intents, v).status, ActionOf(intents[v.payment], v.reading.check).value)]
      else []
  }

  /** The visits that act. */
  function Acting(intents: map<Id, Intent>, visits: seq<Visit>): seq<nat>
    requires Visited(intents, visits)
  {
    if visits == [] then []
    else
      var n := |visits| - 1;
      Acting(intents, visits[..n]) + if Acts(intents, visits[n]) then [n] else []
  }

  /** Each of them once, in order, and no other. */
  lemma {:induction false} ActingExact(intents: map<Id, Intent>, visits: seq<Visit>)
    requires Visited(intents, visits)
    ensures var idx := Acting(intents, visits);
      && (forall i, j :: 0 <= i < j < |idx| ==> idx[i] < idx[j])
      && (forall i :: i in idx <==> 0 <= i < |visits| && Acts(intents, visits[i]))
  {
    hide Acts;
    if visits != [] {
      var n := |visits| - 1;
      var front, before := visits[..n], Acting(intents, visits[..n]);
      ActingExact(intents, front);
      assert forall i :: 0 <= i < n ==> front[i] == visits[i];
      forall i, j | 0 <= i < j < |Acting(intents, visits)|
        ensures Acting(intents, visits)[i] < Acting(intents, visits)[j]
      {
        assert before[i] in before;
      }
    }
  }

  /** Their events: the payment, its action and the status that action leads to. */
  lemma {:induction false} EventsExact(intents: map<Id, Intent>, visits: seq<Visit>, k: nat)
    requires Visited(intents, visits) && k < |EventsOf(intents, visits)|
    ensures |Acting(intents, visits)| == |EventsOf(intents, visits)|
    ensures var e, i := EventsOf(intents, visits)[k], Acting(intents, visits)[k];
      && i < |visits| && e.payment == visits[i].payment
      && Some(e.action) == ActionOf(intents[e.payment], visits[i].reading.check)
      && e.status == if e.action == SplitTriggered then MppSplitting else Recovering
  {
    var n := |visits| - 1;
    var front := visits[..n];
    EventsLength(intents, visits);
    EventsLength(intents, front);
    if k < |EventsOf(intents, front)| {
      EventsExact(intents, front, k);
    }
    hide ActionOf, ShouldRecover;
  }

  lemma {:induction false} EventsLength(intents: map<Id, Intent>, visits: seq<Visit>)
    requires Visited(intents, visits)
    ensures |Acting(intents, visits)| == |EventsOf(intents, visits)|
  {
    hide Acts, Recovered;
    if visits != [] {
      EventsLength(intents, visits[..|visits| - 1]);
    }
  }

  /** The first n visited rows are recovered, each from its own stored state; no other row changed. */
  ghost predicate Applied(was: map<Id, Intent>, now: map<Id, Intent>, visits: seq<Visit>, n: nat)
    requires Visited(was, visits)
  {
    && n <= |visits| && now.Keys == was.Keys
    && (forall i :: 0 <= i < n ==> now[visits[i].payment] == RowAfter(was, visits[i]))
    && (forall i :: n <= i < |visits| ==> now[visits[i].payment] == was[visits[i].payment])
    && (forall id :: id in was && was[id].status == Succeeded ==> now[id] == was[id])
  }

  lemma AppliedNext(was: map<Id, Intent>, now: map<Id, Intent>, visits: seq<Visit>, n: nat)
    requires Selects(was, visits) && Applied(was, now, visits, n) && n < |visits|
    ensures now[visits[n].payment] == was[visits[n].payment]
    ensures Applied(was, now[visits[n].payment := RowAfter(was, visits[n])], visits, n + 1)
    ensures RowAfter(was, visits[n]) == was[visits[n].payment] ==> Applied(was, now, visits, n + 1)
  {
    hide Recovered;
  }

  class PaymentStore {
    var intents: map<Id, Intent>
    var events: seq<LoggedEvent>

    constructor ()
      ensures intents == map[] && events == []
    {
      intents, events := map[], [];
    }

    /**
     Rows are handled up to the first unreadable row or failing statement. A row whose event cannot be written is
     changed all the same; every earlier row acted on has exactly one event.
     */
    method AuditLightningPayments(visits: seq<Visit>) returns (ok: bool, ghost handled: nat)
      requires Selects(intents, visits)
      modifies this
      ensures handled <= |visits| && (ok <==> handled == |visits|)
      ensures forall i :: 0 <= i < handled ==> !Breaks(old(intents), visits[i])
      ensures !ok ==> Breaks(old(intents), visits[handled])
      ensures Applied(old(intents), intents, visits,
                if !ok && visits[handled].fault == EventFails then handled + 1 else handled)
      ensures events == old(events) + EventsOf(old(intents), visits[..handled])
    {
      ghost var was := intents;
      hide Recovered, ActionOf, Applied, Selects;
      assert Applied(was, intents, visits, 0) && Visited(was, visits) by {
        NothingApplied(was, visits);
      }
      ok, handled := true, 0;
      for i := 0 to |visits|
        invariant handled == i && ok && Selects(was, visits) && Visited(was, visits)
        invariant forall j :: 0 <= j < i ==> !Breaks(was, visits[j])
        invariant intents.Keys == was.Keys && Applied(was, intents, visits, i)
        invariant events == old(events) + EventsOf(was, visits[..i])
      {
        var v := visits[i];
        assert visits[..i + 1][..i] == visits[..i];
        AppliedNext(was, intents, visits, i);
        UntouchedUnlessActed(was[v.payment], v.reading);
        if v.fault == RowUnreadable {
          ok := false;
          return;
        }
        var intent := new PaymentIntent(intents[v.payment]);
        var action := intent.ProcessRecovery(v.reading);
        if action.Some? {
          if v.fault == UpdateFails {
            ok := false;
            return;
          }
          intents := intents[v.payment := Written(intents[v.payment], intent.Value())];
          if v.fault == EventFails {
            ok := false;
            return;
          }
          events := events + [LoggedEvent(v.payment, intent.status, action.value)];
        }
        handled := i + 1;
      }
      assert visits[..|visits|] == visits;
    }
  }

  predicate Visited(intents: map<Id, Intent>, visits: seq<Visit>) {
    forall i :: 0 <= i < |visits| ==> visits[i].payment in intents
  }

  lemma NothingApplied(was: map<Id, Intent>, visits: seq<Visit>)
    requires Selects(was, visits)
    ensures Visited(was, visits) && Applied(was, was, visits, 0)
  {
  }

  lemma UntouchedUnlessActed(p: Intent, r: Reading)
    ensures ActionOf(p, r.check).None? ==> Recovered(p, r) == p
    ensures Written(p, Recovered(p, r)) == Recovered(p, r)
  {
  }

  // ---------------------------------------------------------------- a row changed meanwhile

  /**
   The audit writes what it computed from the selected row, whatever is stored by then: the
   change is an allowed one exactly when the payment was not recorded as succeeded meanwhile.
   */
  lemma LateWriteValidIff(selected: Intent, stored: Intent, r: Reading)
    requires ActionOf(selected, r.check).Some?
    ensures var q := Written(stored, Recovered(selected, r));
      (q.status == stored.status || ValidTransition(stored.status, q.status)) <==> stored.status != Succeeded
  {
  }

  lemma LateWriteUndoesSuccess()
    ensures var selected := Intent(Recovering, Some(Transient), 1, 0, 0);
      var stored := selected.(status := Succeeded);
      Written(stored, Recovered(selected, Reading(0, 0))).status == Recovering
  {
  }
}
