/**
 Checking an ERP attestation and claiming its nonce: which times are accepted, for how long
 the nonce is kept, and how often one attestation can be accepted.
 The service is built without overflow checks, so 64-bit differences wrap.
 */
module ErpReplay {
  import opened Binary
  import opened Bytes
  import opened ErpText

  const MAX_CLOCK_SKEW := 60
  const MAX_LIFETIME := 600
  const SIGNATURE_HEX_LEN := 64
  const MAX_KEY_ID_LEN := 128
  const MAX_NONCE_LEN := 256

  datatype Error =
    | InvalidAttestationFormat
    | InvalidSignature
    | ExpiredAttestation
    | ContextMismatch
    | ReplayDetected
    | ReplayStoreUnavailable
    | NoTrustedKeys

  datatype Result<+T> = Ok(value: T) | Err(error: Error) {
    predicate IsFailure() {
      Err?
    }

    function PropagateFailure<U>(): Result<U>
      requires Err?
    {
      Err(error)
    }

    function Extract(): T
      requires Ok?
    {
      value
    }
  }

  type I64 = x: int | -MAX_LEAVES <= x < MAX_LEAVES

  /** Two's complement wrap-around. */
  function Wrap(x: int): I64 {
    (x + MAX_LEAVES) % U64_LIMIT - MAX_LEAVES
  }

  predicate AllHex(s: string) {
    forall i :: 0 <= i < |s| ==> HexValue(s[i]).Some?
  }

  /** An attestation whose times fit in 64 bits. */
  predicate InRange(a: Attestation) {
    -MAX_LEAVES <= a.issuedAt < MAX_LEAVES && -MAX_LEAVES <= a.expiresAt < MAX_LEAVES
  }

  // ---------------------------------------------------------------- checks

  /** Field lengths count bytes. */
  function ValidateMetadata(a: Attestation): Result<()>
  {
    var keyId, nonce, signature := Trim(a.keyId), Trim(a.nonce), Trim(a.signature);
    if keyId == "" || |Utf8(keyId)| > MAX_KEY_ID_LEN then Err(InvalidAttestationFormat)
    else if nonce == "" || |Utf8(nonce)| > MAX_NONCE_LEN then Err(InvalidAttestationFormat)
    else if |Utf8(signature)| != SIGNATURE_HEX_LEN || !AllHex(signature) then Err(InvalidAttestationFormat)
    else if a.expiresAt <= a.issuedAt then Err(InvalidAttestationFormat)
    else if Wrap(a.expiresAt - a.issuedAt) > MAX_LIFETIME then Err(InvalidAttestationFormat)
    else Ok(())
  }

  /** Seconds the nonce must be remembered. */
  function ValidateTimeWindow(a: Attestation, requestTimestamp: int, now: int): Result<nat> {
    if now > a.expiresAt then Err(ExpiredAttestation)
    else if Wrap(now + MAX_CLOCK_SKEW) < a.issuedAt then Err(InvalidAttestationFormat)
    else if requestTimestamp < Wrap(a.issuedAt - MAX_CLOCK_SKEW) then Err(ContextMismatch)
    else if requestTimestamp > Wrap(a.expiresAt + MAX_CLOCK_SKEW) then Err(ContextMismatch)
    else
      var ttl := Wrap(a.expiresAt - now);
      Ok(if ttl > 1 then ttl else 1)
  }

  /** Whether a MAC in hexadecimal is right for a secret and a text. */
  type MacCheck = (string, string, string) -> bool

  /** What the handler is configured with. */
  datatype Service = Service(sha: Hash, macOk: MacCheck, trusted: map<string, string>)

  datatype Verified = Verified(replayKey: string, ttl: nat)

  const REPLAY_PREFIX: string := "nexus:erp:attestation:nonce:v1"

  function NonceText(organizationId: string, a: Attestation): string {
    Trim(organizationId) + "|" + Trim(a.keyId) + "|" + Trim(a.nonce)
  }

  function ReplayKey(sha: Hash, organizationId: string, a: Attestation): string {
    REPLAY_PREFIX + ":" + HexEncode(sha(Utf8(NonceText(organizationId, a))))
  }

  function Verify(env: Service, r: Request, action: string, txIds: seq<string>, now: int): Result<Verified> {
    var _ :- ValidateMetadata(r.attestation);
    if r.attestation.keyId !in env.trusted then Err(InvalidSignature)
    else
      var secret, text := env.trusted[r.attestation.keyId], CanonicalText(r, action, txIds);
      if !env.macOk(secret, text, Trim(r.attestation.signature)) then Err(InvalidSignature)
      else
        var ttl :- ValidateTimeWindow(r.attestation, r.timestamp, now);
        Ok(Verified(ReplayKey(env.sha, r.organizationId, r.attestation), ttl))
  }

  lemma WrapFits(x: int)
    ensures -MAX_LEAVES <= x < MAX_LEAVES ==> Wrap(x) == x
    ensures MAX_LEAVES <= x < MAX_LEAVES + U64_LIMIT ==> Wrap(x) == x - U64_LIMIT
  {
  }

  /** The lifetime check lets through lifetimes of 1 to 600 s, and differences that wrap. */
  lemma LifetimeCheck(a: Attestation)
    requires InRange(a) && a.expiresAt > a.issuedAt
    ensures Wrap(a.expiresAt - a.issuedAt) <= MAX_LIFETIME
      <==> a.expiresAt - a.issuedAt <= MAX_LIFETIME || a.expiresAt - a.issuedAt >= MAX_LEAVES
  {
    WrapFits(a.expiresAt - a.issuedAt);
  }

  /** An accepted nonce is kept at least 1 second, and at most 660 if the lifetime does not wrap. */
  lemma TtlBounds(a: Attestation, timestamp: int, now: I64)
    requires InRange(a) && ValidateMetadata(a).Ok? && ValidateTimeWindow(a, timestamp, now).Ok?
    ensures 1 <= ValidateTimeWindow(a, timestamp, now).value
    ensures a.expiresAt - a.issuedAt < MAX_LEAVES ==>
      ValidateTimeWindow(a, timestamp, now).value <= MAX_LIFETIME + MAX_CLOCK_SKEW
  {
    MetadataTimes(a);
    LifetimeCheck(a);
    WrapFits(a.expiresAt - now);
    WrapFits(now + MAX_CLOCK_SKEW);
    hide ValidateMetadata, Wrap;
  }

  lemma MetadataTimes(a: Attestation)
    requires ValidateMetadata(a).Ok?
    ensures a.expiresAt > a.issuedAt && Wrap(a.expiresAt - a.issuedAt) <= MAX_LIFETIME
  {
    hide Wrap, Trim, Utf8;
  }

  /** Every acceptance of the attestation, at any time from 1970 on, keeps its nonce 1 to 660 seconds. */
  ghost predicate TtlBounded(a: Attestation) {
    forall timestamp: I64, now: I64 :: 0 <= now && ValidateTimeWindow(a, timestamp, now).Ok? ==>
      1 <= ValidateTimeWindow(a, timestamp, now).value <= MAX_LIFETIME + MAX_CLOCK_SKEW
  }

  /**
   That is so exactly when the lifetime is at most 600 seconds, or the attestation expires within
   660 seconds of 1970, or the wrapped bounds on the request's timestamp leave no room.
   */
  lemma TtlBoundedIff(a: Attestation)
    requires InRange(a) && ValidateMetadata(a).Ok?
    ensures TtlBounded(a) <==>
      || a.expiresAt - a.issuedAt <= MAX_LIFETIME
      || a.expiresAt <= MAX_LIFETIME + MAX_CLOCK_SKEW
      || Wrap(a.issuedAt - MAX_CLOCK_SKEW) > Wrap(a.expiresAt + MAX_CLOCK_SKEW)
  {
    MetadataTimes(a);
    LifetimeCheck(a);
    if a.expiresAt - a.issuedAt < MAX_LEAVES {
      ShortLifetimeBounded(a);
    } else {
      LongLifetimeBounded(a);
    }
  }

  lemma ShortLifetimeBounded(a: Attestation)
    requires InRange(a) && ValidateMetadata(a).Ok? && a.expiresAt - a.issuedAt < MAX_LEAVES
    ensures TtlBounded(a)
  {
    hide ValidateTimeWindow, ValidateMetadata;
    forall timestamp: I64, now: I64 | 0 <= now && ValidateTimeWindow(a, timestamp, now).Ok?
      ensures 1 <= ValidateTimeWindow(a, timestamp, now).value <= MAX_LIFETIME + MAX_CLOCK_SKEW
    {
      TtlBounds(a, timestamp, now);
    }
  }

  /** A wrapped difference puts the issue before 1970, so the first second accepts it. */
  lemma LongLifetimeBounded(a: Attestation)
    requires InRange(a) && a.expiresAt - a.issuedAt >= MAX_LEAVES
    ensures TtlBounded(a) <==>
      || a.expiresAt <= MAX_LIFETIME + MAX_CLOCK_SKEW
      || Wrap(a.issuedAt - MAX_CLOCK_SKEW) > Wrap(a.expiresAt + MAX_CLOCK_SKEW)
  {
    hide Wrap, ValidateTimeWindow;
    var earliest, latest := Wrap(a.issuedAt - MAX_CLOCK_SKEW), Wrap(a.expiresAt + MAX_CLOCK_SKEW);
    if a.expiresAt > MAX_LIFETIME + MAX_CLOCK_SKEW && earliest <= latest {
      AcceptedIn1970(a);
      assert !TtlBounded(a);
    } else {
      forall timestamp: I64, now: I64 | 0 <= now && ValidateTimeWindow(a, timestamp, now).Ok?
        ensures 1 <= ValidateTimeWindow(a, timestamp, now).value <= MAX_LIFETIME + MAX_CLOCK_SKEW
      {
        AcceptedTtl(a, timestamp, now);
      }
    }
  }

  lemma AcceptedTtl(a: Attestation, timestamp: I64, now: I64)
    requires InRange(a) && 0 <= now && ValidateTimeWindow(a, timestamp, now).Ok?
    ensures Wrap(a.issuedAt - MAX_CLOCK_SKEW) <= timestamp <= Wrap(a.expiresAt + MAX_CLOCK_SKEW)
    ensures 1 <= ValidateTimeWindow(a, timestamp, now).value
    ensures a.expiresAt >= 1 ==> ValidateTimeWindow(a, timestamp, now).value <= a.expiresAt
    ensures a.expiresAt <= 0 ==> ValidateTimeWindow(a, timestamp, now).value == 1
  {
    WrapFits(a.expiresAt - now);
    hide Wrap;
  }

  lemma AcceptedIn1970(a: Attestation)
    requires InRange(a) && a.issuedAt < 0 < a.expiresAt
    requires Wrap(a.issuedAt - MAX_CLOCK_SKEW) <= Wrap(a.expiresAt + MAX_CLOCK_SKEW)
    ensures ValidateTimeWindow(a, Wrap(a.issuedAt - MAX_CLOCK_SKEW), 0) == Ok(a.expiresAt)
  {
    WrapFits(a.expiresAt - 0);
    WrapFits(0 + MAX_CLOCK_SKEW);
    hide Wrap;
  }

  // ---------------------------------------------------------------- sample attestations

  function ZeroSignature(): string {
    seq(64, _ => '0')
  }

  /** Printable ASCII, nothing to trim. */
  predicate IsPlain(s: string) {
    s != "" && forall i :: 0 <= i < |s| ==> '!' <= s[i] <= '~'
  }

  lemma PlainText(s: string)
    requires IsPlain(s)
    ensures Trim(s) == s && |Utf8(s)| == |s|
  {
    AsciiBytes(s);
  }

  /** Plain identifiers, a signature of zeros and times that pass the lifetime check. */
  lemma PlainMetadata(a: Attestation)
    requires IsPlain(a.keyId) && IsPlain(a.nonce) && |a.keyId| <= MAX_KEY_ID_LEN && |a.nonce| <= MAX_NONCE_LEN
    requires a.signature == ZeroSignature()
    requires a.issuedAt < a.expiresAt && Wrap(a.expiresAt - a.issuedAt) <= MAX_LIFETIME
    ensures ValidateMetadata(a).Ok?
  {
    PlainText(a.keyId);
    PlainText(a.nonce);
    PlainText(a.signature);
    hide Trim, Utf8, Wrap;
  }

  /** A wrapped lifetime escapes the bound. */
  lemma WrappedLifetimeAccepted()
    ensures var a := Attestation("k", "n", -0x4000_0000_0000_0000, 0x4000_0000_0000_0000, ZeroSignature());
      && InRange(a) && ValidateMetadata(a).Ok? && ValidateTimeWindow(a, 1_760_000_000, 1_760_000_000).Ok?
      && ValidateTimeWindow(a, 1_760_000_000, 1_760_000_000).value > MAX_LIFETIME + MAX_CLOCK_SKEW
  {
    hide ValidateMetadata, ZeroSignature, Trim, Utf8, Wrap;
    var a := Attestation("k", "n", -0x4000_0000_0000_0000, 0x4000_0000_0000_0000, ZeroSignature());
    WrapFits(a.expiresAt - a.issuedAt);
    PlainMetadata(a);
    WrapFits(1_760_000_000 + MAX_CLOCK_SKEW);
    WrapFits(a.issuedAt - MAX_CLOCK_SKEW);
    WrapFits(a.expiresAt + MAX_CLOCK_SKEW);
    WrapFits(a.expiresAt - 1_760_000_000);
  }

  // ---------------------------------------------------------------- the nonce store

  /** Milliseconds in a second; the store works to the millisecond, the checks to the second. */
  const MILLIS := 1000

  /** Absent, or written long enough ago. */
  predicate Lapsed(entries: map<string, int>, key: string, at: int) {
    key !in entries || entries[key] <= at
  }

  function ClaimSpec(entries: map<string, int>, key: string, ttl: nat, at: int): (bool, map<string, int>) {
    if Lapsed(entries, key, at) then (true, entries[key := at + ttl * MILLIS]) else (false, entries)
  }

  /** SET NX EX: a key lives from its write until its time to live has passed. */
  class NonceStore {
    /** First millisecond at which each key is gone. */
    var entries: map<string, int>

    constructor ()
      ensures entries == map[]
    {
      entries := map[];
    }

    method SetIfAbsent(key: string, ttl: nat, at: int) returns (claimed: bool)
      modifies this
      ensures (claimed, entries) == ClaimSpec(old(entries), key, ttl, at)
    {
      claimed := key !in entries || entries[key] <= at;
      if claimed {
        entries := entries[key := at + ttl * MILLIS];
      }
    }
  }

  /** What the connection does: answers, loses the reply after the write, or never gets there. */
  datatype Link = Up | ReplyLost | Down

  /**
   One request: verified with the clock reading `now` in seconds, its claim reaching the store
   at millisecond `at`, which may be much later.
   */
  datatype Attempt =
    Attempt(request: Request, action: string, txIds: seq<string>, now: I64, at: int, link: Link)

  function VerifyAttempt(env: Service, x: Attempt): Result<Verified> {
    Verify(env, x.request, x.action, x.txIds, x.now)
  }

  /** The handler, ending in acceptance or an error. */
  method HandleSync(env: Service, store: NonceStore, x: Attempt) returns (r: Result<()>)
    modifies store
    ensures (r, store.entries) == Handle(env, old(store.entries), x)
  {
    if env.trusted == map[] {
      return Err(NoTrustedKeys);
    }
    var v := Verify(env, x.request, x.action, x.txIds, x.now);
    if v.Err? {
      return Err(v.error);
    }
    if x.link == Down {
      return Err(ReplayStoreUnavailable);
    }
    var claimed := store.SetIfAbsent(v.value.replayKey, v.value.ttl, x.at);
    if x.link == ReplyLost {
      return Err(ReplayStoreUnavailable);
    }
    return if claimed then Ok(()) else Err(ReplayDetected);
  }

  function Handle(env: Service, entries: map<string, int>, x: Attempt): (Result<()>, map<string, int>) {
    if env.trusted == map[] then (Err(NoTrustedKeys), entries)
    else
      match VerifyAttempt(env, x)
      case Err(e) => (Err(e), entries)
      case Ok(v) =>
        if x.link == Down then (Err(ReplayStoreUnavailable), entries)
        else
          var (claimed, entries') := ClaimSpec(entries, v.replayKey, v.ttl, x.at);
          var reply :=
            if x.link == ReplyLost then Err(ReplayStoreUnavailable)
            else if claimed then Ok(())
            else Err(ReplayDetected);
          (reply, entries')
  }

  // ---------------------------------------------------------------- runs

  /** Attempts in the order their claims reach the store; the clock was read before, after 1970. */
  ghost predicate Ordered(xs: seq<Attempt>) {
    && (forall i :: 0 <= i < |xs| ==>
          0 <= xs[i].now && xs[i].now * MILLIS <= xs[i].at && InRange(xs[i].request.attestation))
    && forall i, j :: 0 <= i < j < |xs| ==> xs[i].at <= xs[j].at
  }

  /** The store after the first k attempts. */
  function StoreAfter(env: Service, xs: seq<Attempt>, k: nat): map<string, int>
    requires k <= |xs|
  {
    if k == 0 then map[] else Handle(env, StoreAfter(env, xs, k - 1), xs[k - 1]).1
  }

  function ReplyTo(env: Service, xs: seq<Attempt>, k: nat): Result<()>
    requires k < |xs|
  {
    Handle(env, StoreAfter(env, xs, k), xs[k]).0
  }

  predicate Accepted(env: Service, xs: seq<Attempt>, k: nat)
    requires k < |xs|
  {
    ReplyTo(env, xs, k).Ok?
  }

  function KeyOf(sha: Hash, x: Attempt): string {
    ReplayKey(sha, x.request.organizationId, x.request.attestation)
  }

  /** Attempt k writes the key, whether or not its reply gets through. */
  predicate Claims(env: Service, xs: seq<Attempt>, k: nat, key: string)
    requires k < |xs|
  {
    && VerifyAttempt(env, xs[k]).Ok? && KeyOf(env.sha, xs[k]) == key
    && xs[k].link != Down && Lapsed(StoreAfter(env, xs, k), key, xs[k].at)
  }

  /** When the key written by a verified attempt is gone. */
  function LapsesAt(env: Service, x: Attempt): int
    requires VerifyAttempt(env, x).Ok?
  {
    x.at + VerifyAttempt(env, x).value.ttl * MILLIS
  }

  /** One attempt on the store: it answers by the state of its own key and writes no other. */
  lemma HandleDecides(env: Service, entries: map<string, int>, x: Attempt)
    ensures var v, (reply, entries') := VerifyAttempt(env, x), Handle(env, entries, x);
      var claims := v.Ok? && x.link != Down && Lapsed(entries, KeyOf(env.sha, x), x.at);
      && (reply.Ok? <==> claims && x.link == Up)
      && (v.Ok? && x.link == Up && !claims ==> reply == Err(ReplayDetected))
      && entries' == if claims then entries[KeyOf(env.sha, x) := LapsesAt(env, x)] else entries
  {
    hide ReplayKey, ValidateMetadata, ValidateTimeWindow, CanonicalText, Trim;
  }

  /** What is stored for a key is the end of its latest claim, which outlasts every earlier one. */
  lemma {:induction false} StoreIsLatestClaim(env: Service, xs: seq<Attempt>, k: nat, key: string)
    requires k <= |xs|
    ensures var e := StoreAfter(env, xs, k);
      && (key in e ==> exists i :: 0 <= i < k && Claims(env, xs, i, key) && e[key] == LapsesAt(env, xs[i]))
      && forall i :: 0 <= i < k && Claims(env, xs, i, key) ==> key in e && LapsesAt(env, xs[i]) <= e[key]
    decreases k
  {
    hide Handle, VerifyAttempt, KeyOf;
    if k > 0 {
      StoreIsLatestClaim(env, xs, k - 1, key);
      HandleDecides(env, StoreAfter(env, xs, k - 1), xs[k - 1]);
    }
  }

  /**
   Exactly which attempts of a run are accepted: those that verify and reach a store that
   answers when every earlier claim of the same key has lapsed.
   */
  lemma AcceptedIff(env: Service, xs: seq<Attempt>, j: nat)
    requires j < |xs|
    ensures Accepted(env, xs, j) <==>
      && VerifyAttempt(env, xs[j]).Ok? && xs[j].link == Up
      && forall i :: 0 <= i < j && Claims(env, xs, i, KeyOf(env.sha, xs[j])) ==> LapsesAt(env, xs[i]) <= xs[j].at
  {
    hide Handle, VerifyAttempt, KeyOf, Claims, StoreAfter, LapsesAt;
    StoreIsLatestClaim(env, xs, j, KeyOf(env.sha, xs[j]));
    HandleDecides(env, StoreAfter(env, xs, j), xs[j]);
  }

  lemma AcceptedClaims(env: Service, xs: seq<Attempt>, i: nat)
    requires i < |xs| && Accepted(env, xs, i)
    ensures Claims(env, xs, i, KeyOf(env.sha, xs[i]))
  {
    hide Handle, VerifyAttempt, KeyOf;
    HandleDecides(env, StoreAfter(env, xs, i), xs[i]);
  }

  /** A key in the store is never rewritten while it lives. */
  lemma {:induction false} KeyStays(env: Service, xs: seq<Attempt>, key: string, dead: int, i: nat, j: nat)
    requires i <= j <= |xs|
    requires var e := StoreAfter(env, xs, i); key in e && e[key] == dead
    requires forall k :: i <= k < j ==> xs[k].at < dead
    ensures var e := StoreAfter(env, xs, j); key in e && e[key] == dead
    decreases j - i
  {
    hide Handle, VerifyAttempt, KeyOf;
    if i < j {
      KeyStays(env, xs, key, dead, i, j - 1);
      HandleDecides(env, StoreAfter(env, xs, j - 1), xs[j - 1]);
    }
  }

  lemma VerifiedTtl(env: Service, x: Attempt)
    requires VerifyAttempt(env, x).Ok? && 0 <= x.now && InRange(x.request.attestation)
    ensures var v := VerifyAttempt(env, x).value;
      && v.replayKey == KeyOf(env.sha, x)
      && 0 <= x.request.attestation.expiresAt - x.now
      && v.ttl == if x.now < x.request.attestation.expiresAt then x.request.attestation.expiresAt - x.now else 1
  {
    hide ReplayKey, ValidateMetadata, CanonicalText, Trim;
    WrapFits(x.request.attestation.expiresAt - x.now);
    hide Wrap;
  }

  /** The nonce is kept at least until the attestation expires, and at least one second. */
  lemma ClaimOutlivesAttestation(env: Service, x: Attempt)
    requires VerifyAttempt(env, x).Ok? && 0 <= x.now && x.now * MILLIS <= x.at && InRange(x.request.attestation)
    ensures LapsesAt(env, x) >= x.request.attestation.expiresAt * MILLIS && LapsesAt(env, x) >= x.at + MILLIS
    ensures x.now <= x.request.attestation.expiresAt
  {
    VerifiedTtl(env, x);
    hide VerifyAttempt, KeyOf;
  }

  /** While an accepted nonce is kept, nothing with the same replay key is accepted. */
  lemma AtMostOnceWhileKept(env: Service, xs: seq<Attempt>, i: nat, j: nat)
    requires Ordered(xs) && i < j < |xs| && KeyOf(env.sha, xs[j]) == KeyOf(env.sha, xs[i])
    requires Accepted(env, xs, i)
    ensures xs[j].at < xs[i].request.attestation.expiresAt * MILLIS || xs[j].at < xs[i].at + MILLIS ==>
      !Accepted(env, xs, j)
  {
    AcceptedClaims(env, xs, i);
    AcceptedIff(env, xs, j);
    hide KeyOf, StoreAfter, Accepted, VerifyAttempt, LapsesAt;
    ClaimOutlivesAttestation(env, xs[i]);
  }

  /** Both attempts carry the same signed text. */
  ghost predicate SameSigned(x: Attempt, y: Attempt) {
    CanonicalText(x.request, x.action, x.txIds) == CanonicalText(y.request, y.action, y.txIds)
  }

  lemma SameSignedSameKey(sha: Hash, x: Attempt, y: Attempt)
    requires SameSigned(x, y)
    ensures KeyOf(sha, x) == KeyOf(sha, y) && x.request.attestation.expiresAt == y.request.attestation.expiresAt
  {
    hide CanonicalText, Trim, SameList;
    TextDeterminesContent(x.request, x.action, x.txIds, y.request, y.action, y.txIds);
  }

  /**
   No signed text is accepted twice strictly before it expires, whatever other requests come
   in between, however long claims are delayed and whichever replies are lost.
   */
  lemma SignedTextAcceptedOnce(env: Service, xs: seq<Attempt>, i: nat, j: nat)
    requires Ordered(xs) && i < j < |xs| && SameSigned(xs[i], xs[j])
    requires xs[j].at < xs[j].request.attestation.expiresAt * MILLIS
    ensures !(Accepted(env, xs, i) && Accepted(env, xs, j))
  {
    hide SameSigned, KeyOf, Accepted;
    SameSignedSameKey(env.sha, xs[i], xs[j]);
    if Accepted(env, xs, i) {
      AtMostOnceWhileKept(env, xs, i, j);
    }
  }

  /** Claimed within the second in which it was verified. */
  predicate Prompt(x: Attempt) {
    x.at < (x.now + 1) * MILLIS
  }

  /**
   Prompt requests can be accepted at most once before, and at most once within, the second
   in which the text expires: twice in all.
   */
  lemma PromptAttemptsAtMostTwice(env: Service, xs: seq<Attempt>, i: nat, j: nat)
    requires Ordered(xs) && i < j < |xs| && Prompt(xs[i]) && Prompt(xs[j]) && SameSigned(xs[i], xs[j])
    requires Accepted(env, xs, i) && Accepted(env, xs, j)
    ensures xs[i].now < xs[i].request.attestation.expiresAt == xs[j].now
  {
    SameSignedSameKey(env.sha, xs[i], xs[j]);
    AtMostOnceWhileKept(env, xs, i, j);
    AcceptedClaims(env, xs, i);
    AcceptedClaims(env, xs, j);
    hide SameSigned, KeyOf, Accepted, StoreAfter, VerifyAttempt;
    ClaimOutlivesAttestation(env, xs[i]);
    ClaimOutlivesAttestation(env, xs[j]);
  }

  /**
   The two-attempt case: once the first has reached the store, a second attempt with the same
   text is accepted exactly when it verifies, is answered, and comes after the first one's time
   to live. A claim delayed past the expiry does.
   */
  lemma AcceptedAgainIffLapsed(env: Service, first: Attempt, again: Attempt)
    requires VerifyAttempt(env, first).Ok? && first.link != Down && SameSigned(first, again)
    ensures Accepted(env, [first, again], 0) <==> first.link == Up
    ensures Accepted(env, [first, again], 1) <==>
      VerifyAttempt(env, again).Ok? && again.link == Up && LapsesAt(env, first) <= again.at
  {
    var xs := [first, again];
    assert xs[0] == first && xs[1] == again;
    SameSignedSameKey(env.sha, first, again);
    AcceptedIff(env, xs, 0);
    AcceptedIff(env, xs, 1);
    assert StoreAfter(env, xs, 0) == map[];
    hide VerifyAttempt, KeyOf, SameSigned, Accepted, StoreAfter, LapsesAt;
    assert Claims(env, xs, 0, KeyOf(env.sha, first));
  }

  /** So prompt attempts one in time and one in the second of expiry are both accepted. */
  lemma AcceptedAgainAtExpiry(env: Service, first: Attempt, again: Attempt)
    requires 0 <= first.now && InRange(first.request.attestation) && first.link == Up && again.link == Up
    requires again.request == first.request && again.action == first.action && again.txIds == first.txIds
    requires VerifyAttempt(env, first).Ok?
    requires first.at == first.now * MILLIS && first.now < first.request.attestation.expiresAt
    requires again.now == first.request.attestation.expiresAt && again.at == again.now * MILLIS
    requires again.now + MAX_CLOCK_SKEW < MAX_LEAVES
    ensures Accepted(env, [first, again], 0) && Accepted(env, [first, again], 1)
  {
    VerifiedAtExpiry(env, first, again);
    VerifiedTtl(env, first);
    hide VerifyAttempt, Accepted, CanonicalText;
    AcceptedAgainIffLapsed(env, first, again);
  }

  /** What verifies before expiry verifies in the second of expiry too. */
  lemma VerifiedAtExpiry(env: Service, x: Attempt, y: Attempt)
    requires VerifyAttempt(env, x).Ok?
    requires y.request == x.request && y.action == x.action && y.txIds == x.txIds
    requires InRange(x.request.attestation) && 0 <= x.now < x.request.attestation.expiresAt == y.now
    requires y.now + MAX_CLOCK_SKEW < MAX_LEAVES
    ensures VerifyAttempt(env, y) == Ok(Verified(KeyOf(env.sha, x), 1))
  {
    hide ReplayKey, ValidateMetadata, CanonicalText, Trim;
    WrapFits(y.now - y.now);
    WrapFits(y.now + MAX_CLOCK_SKEW);
    WrapFits(x.now + MAX_CLOCK_SKEW);
  }

  // ---------------------------------------------------------------- a replay in figures

  /** Issued at 1000, expiring at 1100. */
  function SampleAttempt(organizationId: string, keyId: string, now: I64): Attempt {
    var a := Attestation(keyId, "n", 1000, 1100, ZeroSignature());
    Attempt(Request(organizationId, "SAP", 1050, a), "sync_legacy", [], now, now * MILLIS, Up)
  }

  predicate AnyMac(secret: string, text: string, signature: string) {
    true
  }

  lemma SampleVerifies(env: Service, organizationId: string, keyId: string, now: I64)
    requires env.macOk == AnyMac && keyId in env.trusted && IsPlain(keyId) && |keyId| <= MAX_KEY_ID_LEN
    requires 1000 <= now < 1100
    ensures var x := SampleAttempt(organizationId, keyId, now);
      VerifyAttempt(env, x) == Ok(Verified(KeyOf(env.sha, x), 1100 - now))
  {
    hide Trim, Utf8, Wrap, CanonicalText, ReplayKey, ValidateMetadata, ZeroSignature;
    var x := SampleAttempt(organizationId, keyId, now);
    WrapFits(1100 - 1000);
    PlainMetadata(x.request.attestation);
    WrapFits(now + MAX_CLOCK_SKEW);
    WrapFits(1000 - MAX_CLOCK_SKEW);
    WrapFits(1100 + MAX_CLOCK_SKEW);
    WrapFits(1100 - now);
    assert ValidateTimeWindow(x.request.attestation, 1050, now) == Ok(1100 - now);
  }

  /** Accepted at 1050 and again at 1100. */
  lemma ExpirySecondReplays(env: Service)
    requires env.macOk == AnyMac && "k" in env.trusted
    ensures var xs := [SampleAttempt("o", "k", 1050), SampleAttempt("o", "k", 1100)];
      Accepted(env, xs, 0) && Accepted(env, xs, 1)
  {
    SampleVerifies(env, "o", "k", 1050);
    hide VerifyAttempt, Accepted, ZeroSignature;
    AcceptedAgainAtExpiry(env, SampleAttempt("o", "k", 1050), SampleAttempt("o", "k", 1100));
  }
}
