/**
 The free tier of 50,000 signatures per key and the 24-hour grace period after it, in which a
 request passes when its random roll is at most 0.4. Requests one at a time; see
 BillingRuns for interleaved ones.
 */
module Billing {
  import opened Bytes

  const GRACE_SECONDS := 86400
  const EFFICIENCY := 0.4
  const LIMIT: nat := 50_000

  datatype GraceStatus = Active(remaining: int, allowed: bool) | Expired

  datatype QuotaDecision =
    | WithinLimit
    | GraceAllowed(startToSet: Option<int>)
    | GraceThrottled(remaining: int)
    | GraceExpired

  function DetermineGraceStatus(now: int, start: int, roll: real): GraceStatus {
    var elapsed := now - start;
    if elapsed < GRACE_SECONDS then Active(GRACE_SECONDS - elapsed, roll <= EFFICIENCY) else Expired
  }

  function EvaluateQuotaDecision(usage: nat, now: int, start: Option<int>, roll: real): QuotaDecision {
    if usage <= LIMIT then WithinLimit
    else
      var toSet := if start.None? then Some(now) else None;
      var effective := if start.None? then now else start.value;
      match DetermineGraceStatus(now, effective, roll)
      case Active(remaining, allowed) => if allowed then GraceAllowed(toSet) else GraceThrottled(remaining)
      case Expired => GraceExpired
  }

  /** An increment whose reply is lost, applied or not, reads as usage 0. */
  datatype Increment = Counted | Lost(applied: bool)

  /** One authenticated request with its clock reading, its roll and the fate of its store commands. */
  datatype Request = Request(now: int, roll: real, increment: Increment, readOk: bool, writeOk: bool)

  datatype Reply = Ok(usage: nat) | Throttled(usage: nat, remaining: int) | LicenseExpired

  /** The stored hash of one key. */
  datatype Record = Record(usage: nat, graceStart: Option<int>)

  function Incremented(rec: Record, i: Increment): Record {
    if i.Counted? || i.applied then rec.(usage := rec.usage + 1) else rec
  }

  /** The whole effect of one request on the key's record, and its reply. */
  function Track(rec: Record, r: Request): (Record, Reply) {
    var usage := if r.increment.Counted? then rec.usage + 1 else 0;
    var counted := Incremented(rec, r.increment);
    match EvaluateQuotaDecision(usage, r.now, if r.readOk then rec.graceStart else None, r.roll)
    case WithinLimit => (counted, Ok(usage))
    case GraceAllowed(None) => (counted, Ok(usage))
    case GraceAllowed(start) => (if r.writeOk then counted.(graceStart := start) else counted, Ok(usage))
    case GraceThrottled(remaining) => (counted, Throttled(usage, remaining))
    case GraceExpired => (counted, LicenseExpired)
  }

  class KeyRecord {
    var usage: nat
    var graceStart: Option<int>

    constructor ()
      ensures usage == 0 && graceStart == None
    {
      usage, graceStart := 0, None;
    }

    ghost function Contents(): Record
      reads this
    {
      Record(usage, graceStart)
    }

    /** HINCRBY, then over the limit HGET and perhaps HSET. */
    method TrackSignature(r: Request) returns (reply: Reply)
      modifies this
      ensures (Contents(), reply) == Track(old(Contents()), r)
    {
      var newUsage := 0;
      match r.increment {
        case Counted =>
          usage := usage + 1;
          newUsage := usage;
        case Lost(applied) =>
          usage := if applied then usage + 1 else usage;
      }
      if newUsage <= LIMIT {
        return Ok(newUsage);
      }
      var start := if r.readOk then graceStart else None;
      match EvaluateQuotaDecision(newUsage, r.now, start, r.roll) {
        case WithinLimit =>
        case GraceAllowed(toSet) =>
          if toSet.Some? && r.writeOk {
            graceStart := toSet;
          }
        case GraceThrottled(remaining) =>
          return Throttled(newUsage, remaining);
        case GraceExpired =>
          return LicenseExpired;
      }
      return Ok(newUsage);
    }
  }

  // ---------------------------------------------------------------- runs, one at a time

  function After(rec: Record, rs: seq<Request>): Record {
    if rs == [] then rec else Track(After(rec, rs[..|rs| - 1]), rs[|rs| - 1]).0
  }

  /** A new key. */
  function Fresh(): Record {
    Record(0, None)
  }

  function ReplyTo(rs: seq<Request>, i: nat): Reply
    requires i < |rs|
  {
    Track(After(Fresh(), rs[..i]), rs[i]).1
  }

  /** No store command fails. */
  predicate Smooth(rs: seq<Request>) {
    forall i :: 0 <= i < |rs| ==> rs[i].increment.Counted? && rs[i].readOk && rs[i].writeOk
  }

  predicate Ordered(rs: seq<Request>) {
    forall i, j :: 0 <= i <= j < |rs| ==> rs[i].now <= rs[j].now
  }

  /** The request that opens the grace period: the first one past the limit whose roll passes. */
  function Opening(rs: seq<Request>): Option<nat> {
    if rs == [] then None
    else
      var n := |rs| - 1;
      var earlier := Opening(rs[..n]);
      if earlier.None? && n >= LIMIT && rs[n].roll <= EFFICIENCY then Some(n) else earlier
  }

  lemma {:induction false} OpeningIsFirst(rs: seq<Request>)
    ensures Opening(rs).Some? ==>
      var o := Opening(rs).value; 50_000 <= o < |rs| && rs[o].roll <= 0.4
    ensures forall i :: 50_000 <= i < |rs| && rs[i].roll <= 0.4 ==> Opening(rs).Some? && Opening(rs).value <= i
  {
    if rs != [] {
      var front := rs[..|rs| - 1];
      OpeningIsFirst(front);
      forall i | 50_000 <= i < |rs| && rs[i].roll <= 0.4
        ensures Opening(rs).Some? && Opening(rs).value <= i
      {
        assert i < |front| ==> front[i] == rs[i];
      }
    }
  }

  lemma {:induction false} OpeningOfPrefix(rs: seq<Request>, i: nat)
    requires i <= |rs|
    ensures Opening(rs[..i]) == if Opening(rs).Some? && Opening(rs).value < i then Opening(rs) else None
    decreases |rs|
  {
    OpeningIsFirst(rs);
    OpeningIsFirst(rs[..i]);
    if i < |rs| {
      var front := rs[..|rs| - 1];
      assert front[..i] == rs[..i];
      OpeningOfPrefix(front, i);
      OpeningIsFirst(front);
    } else {
      assert rs[..i] == rs;
    }
  }

  function StartAfter(rs: seq<Request>): Option<int> {
    OpeningIsFirst(rs);
    match Opening(rs) case None => None case Some(o) => Some(rs[o].now)
  }

  /** Every request is counted, and the stored start is the clock reading of the opening request. */
  lemma {:induction false} RecordAfter(rs: seq<Request>)
    requires Smooth(rs)
    ensures After(Fresh(), rs) == Record(|rs|, StartAfter(rs))
  {
    if rs != [] {
      var front, last := rs[..|rs| - 1], rs[|rs| - 1];
      RecordAfter(front);
      OpeningIsFirst(front);
      OpeningIsFirst(rs);
    }
  }

  /**
   The reply to every request, in closed form: the first 50,000 pass; a later one is measured
   against the opening request if that came before, and against itself if not.
   */
  lemma ReplyExact(rs: seq<Request>, i: nat)
    requires Smooth(rs) && i < |rs|
    ensures 50_000 <= i && Opening(rs).Some? ==> Opening(rs).value < |rs|
    ensures ReplyTo(rs, i) ==
      if i < 50_000 then Ok(i + 1)
      else
        var elapsed := if Opening(rs).Some? && Opening(rs).value < i then rs[i].now - rs[Opening(rs).value].now else 0;
        if elapsed >= 86400 then LicenseExpired
        else if rs[i].roll <= 0.4 then Ok(i + 1)
        else Throttled(i + 1, 86400 - elapsed)
  {
    RecordAfter(rs[..i]);
    OpeningOfPrefix(rs, i);
    OpeningIsFirst(rs);
    OpeningIsFirst(rs[..i]);
    hide After, Opening;
  }

  /**
   Past the limit every request that passes does so in the 24 hours from the opening request,
   which is the first of them: throttled ones before it do not start the clock.
   */
  lemma GraceWindow(rs: seq<Request>, i: nat)
    requires Smooth(rs) && Ordered(rs) && 50_000 <= i < |rs| && ReplyTo(rs, i).Ok?
    ensures Opening(rs).Some? && 50_000 <= Opening(rs).value <= i && rs[Opening(rs).value].roll <= 0.4
    ensures var start := rs[Opening(rs).value].now;
      ReplyTo(rs, Opening(rs).value).Ok? && start <= rs[i].now < start + 86400
  {
    hide ReplyTo, Opening;
    ReplyExact(rs, i);
    OpeningIsFirst(rs);
    ReplyExact(rs, Opening(rs).value);
  }

  /** Exactly the first 50,000 requests of a run pass without a roll. */
  lemma FreeTierExact(rs: seq<Request>, i: nat)
    requires Smooth(rs) && i < |rs| && rs[i].roll > 0.4
    ensures ReplyTo(rs, i).Ok? <==> i < 50_000
  {
    hide ReplyTo, Opening;
    ReplyExact(rs, i);
  }

  // ---------------------------------------------------------------- failing commands

  /** A lost increment always passes, as usage 0; a lost write lets the request pass and stores nothing. */
  lemma FailuresExact(rec: Record, r: Request)
    ensures r.increment.Lost? ==>
      Track(rec, r) == (Record(if r.increment.applied then rec.usage + 1 else rec.usage, rec.graceStart), Ok(0))
    ensures r.increment.Counted? && rec.usage >= 50_000 && rec.graceStart == None && r.roll <= 0.4 ==>
      Track(rec, r) == (Record(rec.usage + 1, if r.writeOk then Some(r.now) else None), Ok(rec.usage + 1))
  {
  }

  /** A set start is replaced exactly by a request past the limit that fails to read it and passes. */
  lemma StartReplacedIff(rec: Record, r: Request, start: int)
    requires rec.graceStart == Some(start)
    ensures Track(rec, r).0.graceStart != Some(start) <==>
      && r.increment.Counted? && rec.usage >= LIMIT
      && !r.readOk && r.roll <= EFFICIENCY && r.writeOk && r.now != start
  {
  }

  /** Reads that succeed are enough: a set start stays, and after 24 hours nothing counted passes. */
  lemma {:induction false} StartStays(rec: Record, rs: seq<Request>, start: int)
    requires rec.graceStart == Some(start)
    requires forall i :: 0 <= i < |rs| ==> rs[i].readOk
    ensures After(rec, rs).graceStart == Some(start)
    ensures forall i :: 0 <= i < |rs| && rs[i].increment.Counted? && rs[i].now >= start + GRACE_SECONDS ==>
      After(rec, rs[..i]).usage >= LIMIT ==> Track(After(rec, rs[..i]), rs[i]).1 == LicenseExpired
  {
    if rs != [] {
      var front, last := rs[..|rs| - 1], rs[|rs| - 1];
      StartStays(rec, front, start);
      StartReplacedIff(After(rec, front), last, start);
      forall i | 0 <= i < |rs| && rs[i].increment.Counted? && rs[i].now >= start + GRACE_SECONDS &&
        After(rec, rs[..i]).usage >= LIMIT
        ensures Track(After(rec, rs[..i]), rs[i]).1 == LicenseExpired
      {
        if i < |front| {
          assert front[..i] == rs[..i] && front[i] == rs[i];
        }
      }
    }
  }

  /** 50,001 requests at time 0 whose rolls pass: the last one opens the grace period. */
  function Opened(): (rs: seq<Request>)
    ensures |rs| == LIMIT + 1 && forall i :: 0 <= i < |rs| ==> rs[i] == Request(0, 0.0, Counted, true, true)
  {
    seq(LIMIT + 1, _ => Request(0, 0.0, Counted, true, true))
  }

  /** One failed read opens a second grace period for that key. */
  lemma FailedReadReopens()
    ensures var rec := After(Fresh(), Opened());
      var late := Request(GRACE_SECONDS, 0.0, Counted, false, true);
      && rec == Record(LIMIT + 1, Some(0))
      && Track(rec, late) == (Record(LIMIT + 2, Some(GRACE_SECONDS)), Ok(LIMIT + 2))
      && Track(rec, late.(readOk := true)) == (Record(LIMIT + 2, Some(0)), LicenseExpired)
  {
    var rs := Opened();
    hide Opened, After, Opening;
    RecordAfter(rs);
    OpeningIsFirst(rs);
    assert rs[LIMIT].roll <= EFFICIENCY;
  }
}
