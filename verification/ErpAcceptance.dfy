/**
 Which requests the ERP handler accepts and how it refuses the others, said in figures and
 without the functions that decide it.
 */
module ErpAcceptance {
  import opened Bytes
  import opened ErpText
  import opened ErpReplay

  // ---------------------------------------------------------------- one request

  /** Key id of 1 to 128 bytes, nonce of 1 to 256, 64 hexadecimal digits, a lifetime up to 600 seconds. */
  predicate WellFormed(a: Attestation) {
    && 1 <= |Utf8(Trim(a.keyId))| <= 128
    && 1 <= |Utf8(Trim(a.nonce))| <= 256
    && |Trim(a.signature)| == 64 && (forall c :: c in Trim(a.signature) ==> c in "0123456789abcdefABCDEF")
    && a.issuedAt < a.expiresAt && Wrap(a.expiresAt - a.issuedAt) <= 600
  }

  /** A trusted key, and a MAC under its secret of the canonical text. */
  predicate Signed(env: Service, x: Attempt) {
    var a := x.request.attestation;
    && a.keyId in env.trusted
    && env.macOk(env.trusted[a.keyId], CanonicalText(x.request, x.action, x.txIds), Trim(a.signature))
  }

  predicate RequestInTime(a: Attestation, timestamp: int) {
    Wrap(a.issuedAt - 60) <= timestamp <= Wrap(a.expiresAt + 60)
  }

  /** All that is asked of a request before its nonce. */
  predicate Genuine(env: Service, x: Attempt) {
    var a := x.request.attestation;
    && WellFormed(a) && Signed(env, x)
    && a.issuedAt <= Wrap(x.now + 60) && x.now <= a.expiresAt
    && RequestInTime(a, x.request.timestamp)
  }

  function Ttl(x: Attempt): nat {
    var left := Wrap(x.request.attestation.expiresAt - x.now);
    if left >= 1 then left else 1
  }

  lemma {:induction false} Utf8Grows(s: string)
    ensures |Utf8(s)| >= |s| && (|Utf8(s)| == 0 <==> s == "")
    ensures (forall i :: 0 <= i < |s| ==> s[i] < 128 as char) ==> |Utf8(s)| == |s|
  {
    if s != "" {
      Utf8Grows(s[1..]);
      assert s[0] < 128 as char ==> |Utf8Char(s[0])| == 1;
    }
  }

  lemma HexChar(c: char)
    ensures HexValue(c).Some? <==> c in "0123456789abcdefABCDEF"
    ensures HexValue(c).Some? ==> c < 128 as char
  {
  }

  lemma SignatureForm(s: string)
    ensures |Utf8(s)| == 64 && AllHex(s) <==> |s| == 64 && forall c :: c in s ==> c in "0123456789abcdefABCDEF"
  {
    forall c: char
      ensures HexValue(c).Some? <==> c in "0123456789abcdefABCDEF"
      ensures HexValue(c).Some? ==> c < 128 as char
    {
      HexChar(c);
    }
    hide HexValue;
    Utf8Grows(s);
    hide Utf8;
    if AllHex(s) {
      forall c | c in s
        ensures c in "0123456789abcdefABCDEF"
      {
        var i :| 0 <= i < |s| && s[i] == c;
      }
    }
  }

  lemma FormExact(a: Attestation)
    ensures ValidateMetadata(a) == if WellFormed(a) then Ok(()) else Err(InvalidAttestationFormat)
  {
    Utf8Grows(Trim(a.keyId));
    Utf8Grows(Trim(a.nonce));
    SignatureForm(Trim(a.signature));
    hide Trim, Utf8, Wrap, AllHex;
  }

  lemma WindowExact(a: Attestation, timestamp: int, now: int)
    ensures ValidateTimeWindow(a, timestamp, now) ==
      if now > a.expiresAt then Err(ExpiredAttestation)
      else if a.issuedAt > Wrap(now + 60) then Err(InvalidAttestationFormat)
      else if !RequestInTime(a, timestamp) then Err(ContextMismatch)
      else Ok(if Wrap(a.expiresAt - now) >= 1 then Wrap(a.expiresAt - now) else 1)
  {
    hide Wrap;
  }

  lemma GenuineIff(env: Service, x: Attempt)
    ensures VerifyAttempt(env, x).Ok? <==> Genuine(env, x)
    ensures VerifyAttempt(env, x).Ok? ==> VerifyAttempt(env, x).value == Verified(KeyOf(env.sha, x), Ttl(x))
  {
    FormExact(x.request.attestation);
    WindowExact(x.request.attestation, x.request.timestamp, x.now);
    hide ValidateMetadata, ValidateTimeWindow, WellFormed, Wrap, Trim, CanonicalText, ReplayKey;
  }

  // ---------------------------------------------------------------- a run

  /** First millisecond at which the nonce claimed by x is free again. */
  function FreeAgain(x: Attempt): int {
    x.at + Ttl(x) * 1000
  }

  /** Attempt k claims its nonce: genuine, reaching the store, and every earlier claim of the key free again. */
  predicate Claimed(env: Service, xs: seq<Attempt>, k: nat)
    requires k < |xs|
    decreases k
  {
    && Genuine(env, xs[k]) && xs[k].link != Down
    && forall i :: 0 <= i < k && Claimed(env, xs, i) && KeyOf(env.sha, xs[i]) == KeyOf(env.sha, xs[k]) ==>
         FreeAgain(xs[i]) <= xs[k].at
  }

  /** The key of attempt j is in use when it arrives. */
  predicate InUse(env: Service, xs: seq<Attempt>, j: nat)
    requires j < |xs|
  {
    exists i :: 0 <= i < j && Claimed(env, xs, i) && KeyOf(env.sha, xs[i]) == KeyOf(env.sha, xs[j]) &&
      xs[j].at < FreeAgain(xs[i])
  }

  lemma LapsedIff(env: Service, xs: seq<Attempt>, k: nat, key: string, at: int)
    requires k <= |xs|
    ensures Lapsed(StoreAfter(env, xs, k), key, at) <==>
      forall i :: 0 <= i < k && Claims(env, xs, i, key) ==> LapsesAt(env, xs[i]) <= at
  {
    hide StoreAfter, VerifyAttempt, KeyOf, LapsesAt, Claims;
    StoreIsLatestClaim(env, xs, k, key);
  }

  lemma {:induction false} ClaimedIff(env: Service, xs: seq<Attempt>, k: nat)
    requires k < |xs|
    ensures Claimed(env, xs, k) <==> Claims(env, xs, k, KeyOf(env.sha, xs[k]))
    decreases k
  {
    var key := KeyOf(env.sha, xs[k]);
    LapsedIff(env, xs, k, key, xs[k].at);
    GenuineIff(env, xs[k]);
    forall i | 0 <= i < k
      ensures Claimed(env, xs, i) && KeyOf(env.sha, xs[i]) == key <==> Claims(env, xs, i, key)
      ensures Claims(env, xs, i, key) ==> LapsesAt(env, xs[i]) == FreeAgain(xs[i])
    {
      ClaimedIff(env, xs, i);
      GenuineIff(env, xs[i]);
      hide StoreAfter, KeyOf, Genuine, Ttl, VerifyAttempt;
    }
    hide StoreAfter, KeyOf, Genuine, FreeAgain, VerifyAttempt, LapsesAt, Lapsed;
  }

  lemma InUseIff(env: Service, xs: seq<Attempt>, j: nat)
    requires j < |xs|
    ensures InUse(env, xs, j) <==> !Lapsed(StoreAfter(env, xs, j), KeyOf(env.sha, xs[j]), xs[j].at)
  {
    var key := KeyOf(env.sha, xs[j]);
    LapsedIff(env, xs, j, key, xs[j].at);
    forall i | 0 <= i < j
      ensures Claimed(env, xs, i) && KeyOf(env.sha, xs[i]) == key <==> Claims(env, xs, i, key)
      ensures Claims(env, xs, i, key) ==> LapsesAt(env, xs[i]) == FreeAgain(xs[i])
    {
      ClaimedIff(env, xs, i);
      GenuineIff(env, xs[i]);
      hide StoreAfter, KeyOf, Genuine, Ttl, VerifyAttempt, Claimed;
    }
    hide StoreAfter, KeyOf, Claimed, Claims, FreeAgain, LapsesAt, Lapsed;
  }

  /** Over every run, an attempt is accepted exactly when it is genuine, answered, and its nonce is free. */
  lemma AcceptedExactly(env: Service, xs: seq<Attempt>, j: nat)
    requires j < |xs|
    ensures Accepted(env, xs, j) <==> Genuine(env, xs[j]) && xs[j].link == Up && !InUse(env, xs, j)
  {
    InUseIff(env, xs, j);
    GenuineIff(env, xs[j]);
    HandleDecides(env, StoreAfter(env, xs, j), xs[j]);
    hide StoreAfter, KeyOf, Genuine, InUse, Lapsed, VerifyAttempt, Handle;
  }

  /** The answer to every attempt of every run, first failure first. */
  lemma ReplyExact(env: Service, xs: seq<Attempt>, j: nat)
    requires j < |xs|
    ensures var x, a := xs[j], xs[j].request.attestation;
      ReplyTo(env, xs, j) ==
        if env.trusted == map[] then Err(NoTrustedKeys)
        else if !WellFormed(a) then Err(InvalidAttestationFormat)
        else if !Signed(env, x) then Err(InvalidSignature)
        else if x.now > a.expiresAt then Err(ExpiredAttestation)
        else if a.issuedAt > Wrap(x.now + 60) then Err(InvalidAttestationFormat)
        else if !RequestInTime(a, x.request.timestamp) then Err(ContextMismatch)
        else if x.link != Up then Err(ReplayStoreUnavailable)
        else if InUse(env, xs, j) then Err(ReplayDetected)
        else Ok(())
  {
    InUseIff(env, xs, j);
    FormExact(xs[j].request.attestation);
    WindowExact(xs[j].request.attestation, xs[j].request.timestamp, xs[j].now);
    hide StoreAfter, ReplayKey, WellFormed, InUse, ValidateMetadata, ValidateTimeWindow, Wrap, Trim, CanonicalText;
  }

  /** Times that stay clear of the ends of the 64-bit range: plain inequalities. */
  lemma GenuineInPlainTime(env: Service, x: Attempt)
    requires var a := x.request.attestation; -0x4000_0000_0000_0000 < a.issuedAt && a.expiresAt < 0x4000_0000_0000_0000
    requires -0x4000_0000_0000_0000 < x.now < 0x4000_0000_0000_0000
    ensures var a := x.request.attestation;
      Genuine(env, x) <==>
        && 1 <= |Utf8(Trim(a.keyId))| <= 128 && 1 <= |Utf8(Trim(a.nonce))| <= 256
        && |Trim(a.signature)| == 64 && (forall c :: c in Trim(a.signature) ==> c in "0123456789abcdefABCDEF")
        && Signed(env, x)
        && 0 < a.expiresAt - a.issuedAt <= 600
        && a.issuedAt - 60 <= x.now <= a.expiresAt
        && a.issuedAt - 60 <= x.request.timestamp <= a.expiresAt + 60
  {
    var a := x.request.attestation;
    hide Trim, Utf8, Signed, Wrap;
    WrapFits(x.now + 60);
    if a.issuedAt < a.expiresAt {
      WrapFits(a.expiresAt - a.issuedAt);
      WrapFits(a.issuedAt - 60);
      WrapFits(a.expiresAt + 60);
    }
  }

  // ---------------------------------------------------------------- the replay key

  lemma {:induction false} Utf8Concat(s: string, t: string)
    ensures Utf8(s + t) == Utf8(s) + Utf8(t)
  {
    if s == "" {
      assert s + t == t;
    } else {
      assert (s + t)[1..] == s[1..] + t;
      Utf8Concat(s[1..], t);
    }
  }

  /** The hashed bytes: the three trimmed fields with a bar byte between them. */
  lemma NonceBytes(o: string, a: Attestation)
    ensures Utf8(NonceText(o, a)) == Utf8(Trim(o)) + [0x7C] + Utf8(Trim(a.keyId)) + [0x7C] + Utf8(Trim(a.nonce))
  {
    var k, n := Trim(a.keyId), Trim(a.nonce);
    AsciiBytes("|");
    assert Utf8("|") == [0x7C];
    hide Utf8, Trim;
    Utf8Concat(Trim(o), "|");
    Utf8Concat(Trim(o) + "|", k);
    Utf8Concat(Trim(o) + "|" + k, "|");
    Utf8Concat(Trim(o) + "|" + k + "|", n);
  }

  /** The key: its prefix and the 64 lower-case digits of their digest. */
  lemma ReplayKeyText(sha: Hash, o: string, a: Attestation)
    ensures var key := ReplayKey(sha, o, a);
      && "nexus:erp:attestation:nonce:v1:" <= key && |key| == |"nexus:erp:attestation:nonce:v1:"| + 64
      && "0x" + key[|key| - 64..] == Print0x(sha(Utf8(NonceText(o, a))))
      && IsDigestText("0x" + key[|key| - 64..])
  {
    var d := sha(Utf8(NonceText(o, a)));
    hide NonceText, Utf8;
    HexText(d);
    PrintedDigest(d);
    hide HexEncode, IsDigestText;
    var key := ReplayKey(sha, o, a);
    assert REPLAY_PREFIX + ":" == "nexus:erp:attestation:nonce:v1:";
    assert key[|key| - 64..] == HexEncode(d);
  }
}
