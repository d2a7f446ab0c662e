/**
 Which nonces share a replay key: organization, key id and nonce are trimmed and hashed with
 bars between them, and none of the three is escaped.
 */
module ErpKeys {
  import opened Bytes
  import opened SignedText
  import opened ErpText
  import opened ErpReplay

  predicate SameTriple(o: string, a: Attestation, o': string, a': Attestation) {
    Trim(o) == Trim(o') && Trim(a.keyId) == Trim(a'.keyId) && Trim(a.nonce) == Trim(a'.nonce)
  }

  // ---------------------------------------------------------------- trimming

  /** No white space at either end. */
  predicate IsTrimmed(s: string) {
    s == "" || (!IsWhitespace(s[0]) && !IsWhitespace(s[|s| - 1]))
  }

  lemma {:induction false} TrimStartEnds(s: string)
    ensures TrimStart(s) != "" ==> !IsWhitespace(TrimStart(s)[0])
  {
    hide IsWhitespace;
    if s != "" && IsWhitespace(s[0]) {
      TrimStartEnds(s[1..]);
    }
  }

  lemma {:induction false} TrimEndEnds(s: string)
    ensures TrimEnd(s) <= s
    ensures TrimEnd(s) != "" ==> !IsWhitespace(TrimEnd(s)[|TrimEnd(s)| - 1])
  {
    hide IsWhitespace;
    if s != "" && IsWhitespace(s[|s| - 1]) {
      TrimEndEnds(s[..|s| - 1]);
    }
  }

  predicate AllWhite(s: string) {
    forall i :: 0 <= i < |s| ==> IsWhitespace(s[i])
  }

  lemma {:induction false} TrimStartCuts(s: string) returns (cut: string)
    ensures s == cut + TrimStart(s) && AllWhite(cut)
  {
    hide IsWhitespace;
    if s != "" && IsWhitespace(s[0]) {
      var rest := TrimStartCuts(s[1..]);
      cut := [s[0]] + rest;
      assert s == [s[0]] + s[1..];
    } else {
      cut := "";
    }
  }

  lemma {:induction false} TrimEndCuts(s: string) returns (cut: string)
    ensures s == TrimEnd(s) + cut && AllWhite(cut)
  {
    hide IsWhitespace;
    if s != "" && IsWhitespace(s[|s| - 1]) {
      var rest := TrimEndCuts(s[..|s| - 1]);
      cut := rest + [s[|s| - 1]];
      assert s == s[..|s| - 1] + [s[|s| - 1]];
    } else {
      cut := "";
    }
  }

  /** White space goes at both ends, all of it and nothing else. */
  lemma TrimExact(s: string) returns (before: string, after: string)
    ensures s == before + Trim(s) + after && AllWhite(before) && AllWhite(after) && IsTrimmed(Trim(s))
  {
    TrimOnce(s);
    before := TrimStartCuts(s);
    after := TrimEndCuts(TrimStart(s));
    hide AllWhite, IsTrimmed, TrimStart, TrimEnd;
    assert before + (Trim(s) + after) == before + Trim(s) + after;
  }

  /** Trimming leaves trimmed text, and leaves trimmed text alone. */
  lemma TrimOnce(s: string)
    ensures IsTrimmed(Trim(s)) && Trim(Trim(s)) == Trim(s)
  {
    TrimStartEnds(s);
    TrimEndEnds(TrimStart(s));
    hide IsWhitespace;
  }

  // ---------------------------------------------------------------- splitting the hashed text

  /** Bars at p and q cut the text into three pieces that are their own trim. */
  predicate Splits(t: string, p: nat, q: nat) {
    && p < q < |t| && t[p] == '|' && t[q] == '|'
    && Trim(t[..p]) == t[..p] && Trim(t[p + 1..q]) == t[p + 1..q] && Trim(t[q + 1..]) == t[q + 1..]
  }

  function FirstBar(o: string): nat {
    |Trim(o)|
  }

  function SecondBar(o: string, a: Attestation): nat {
    |Trim(o)| + 1 + |Trim(a.keyId)|
  }

  /** The hashed text can be cut at some other pair of bars. */
  ghost predicate OtherSplit(o: string, a: Attestation) {
    exists p: nat, q: nat :: Splits(NonceText(o, a), p, q) && (p != FirstBar(o) || q != SecondBar(o, a))
  }

  /** The text is cut at its own bars into the trimmed triple. */
  lemma OwnSplit(o: string, a: Attestation)
    ensures var t, p, q := NonceText(o, a), FirstBar(o), SecondBar(o, a);
      && Splits(t, p, q)
      && t[..p] == Trim(o) && t[p + 1..q] == Trim(a.keyId) && t[q + 1..] == Trim(a.nonce)
  {
    TrimOnce(o);
    TrimOnce(a.keyId);
    TrimOnce(a.nonce);
    hide Trim;
    var t, p, q := NonceText(o, a), FirstBar(o), SecondBar(o, a);
    assert t[..p] == Trim(o) && t[p + 1..q] == Trim(a.keyId) && t[q + 1..] == Trim(a.nonce);
  }

  lemma SameTextSameTriple(o: string, a: Attestation, o': string, a': Attestation)
    requires NonceText(o, a) == NonceText(o', a')
    ensures SameTriple(o, a, o', a') <==> FirstBar(o) == FirstBar(o') && SecondBar(o, a) == SecondBar(o', a')
    ensures SameTriple(o, a, o', a') || OtherSplit(o, a)
  {
    OwnSplit(o, a);
    OwnSplit(o', a');
    hide Trim, NonceText;
  }

  /** The triple cut out at another pair of bars. */
  lemma CutTriple(t: string, p: nat, q: nat) returns (o: string, a: Attestation)
    requires Splits(t, p, q)
    ensures NonceText(o, a) == t && FirstBar(o) == p && SecondBar(o, a) == q
  {
    hide Trim;
    o, a := t[..p], Attestation(t[p + 1..q], t[q + 1..], 0, 0, "");
    assert t == t[..p] + "|" + t[p + 1..q] + "|" + t[q + 1..];
  }

  ghost predicate SharesText(o: string, a: Attestation) {
    exists o', a' :: !SameTriple(o, a, o', a') && NonceText(o, a) == NonceText(o', a')
  }

  /**
   A different trimmed triple has the same hashed text exactly when the text has another pair
   of bars whose three pieces are their own trim.
   */
  lemma SharesTextIff(o: string, a: Attestation)
    ensures SharesText(o, a) <==> OtherSplit(o, a)
  {
    hide Trim, NonceText, Splits, FirstBar, SecondBar, SameTriple;
    if SharesText(o, a) {
      var o', a' :| !SameTriple(o, a, o', a') && NonceText(o, a) == NonceText(o', a');
      SameTextSameTriple(o, a, o', a');
    }
    if OtherSplit(o, a) {
      var p: nat, q: nat :| Splits(NonceText(o, a), p, q) && (p != FirstBar(o) || q != SecondBar(o, a));
      var o', a' := CutTriple(NonceText(o, a), p, q);
      SameTextSameTriple(o, a, o', a');
      assert !SameTriple(o, a, o', a');
    }
  }

  // ---------------------------------------------------------------- keys

  /** The two texts hashed for the keys. */
  function KeyInputs(o: string, a: Attestation, o': string, a': Attestation): set<seq<Byte>> {
    {Utf8(NonceText(o, a)), Utf8(NonceText(o', a'))}
  }

  lemma SameKeySameText(sha: Hash, o: string, a: Attestation, o': string, a': Attestation)
    requires ReplayKey(sha, o, a) == ReplayKey(sha, o', a')
    ensures NonceText(o, a) == NonceText(o', a') || Collision(sha, KeyInputs(o, a, o', a'))
  {
    hide NonceText, Utf8, HexEncode, HexDecode;
    var x, x' := Utf8(NonceText(o, a)), Utf8(NonceText(o', a'));
    var prefix := REPLAY_PREFIX + ":";
    assert (prefix + HexEncode(sha(x)))[|prefix|..] == HexEncode(sha(x));
    assert (prefix + HexEncode(sha(x')))[|prefix|..] == HexEncode(sha(x'));
    HexRoundTrip(sha(x));
    HexRoundTrip(sha(x'));
    if x == x' {
      Utf8Injective(NonceText(o, a), NonceText(o', a'));
    } else {
      assert x in KeyInputs(o, a, o', a') && x' in KeyInputs(o, a, o', a');
    }
  }

  /**
   For any two nonces: equal trimmed triples share a replay key, and a shared key means equal
   triples, a text that can be cut another way, or a collision of the two hashed texts.
   */
  lemma ReplayKeysSeparate(sha: Hash, o: string, a: Attestation, o': string, a': Attestation)
    ensures SameTriple(o, a, o', a') ==> ReplayKey(sha, o, a) == ReplayKey(sha, o', a')
    ensures ReplayKey(sha, o, a) == ReplayKey(sha, o', a') ==>
      || SameTriple(o, a, o', a')
      || (NonceText(o, a) == NonceText(o', a') && OtherSplit(o, a))
      || Collision(sha, KeyInputs(o, a, o', a'))
  {
    hide Trim, Utf8, HexEncode, OtherSplit, Collision, KeyInputs;
    if ReplayKey(sha, o, a) == ReplayKey(sha, o', a') {
      SameKeySameText(sha, o, a, o', a');
      if NonceText(o, a) == NonceText(o', a') {
        SameTextSameTriple(o, a, o', a');
      }
    }
  }

  /** Some different triple has the same replay key without a collision of the hash. */
  ghost predicate SharesKey(sha: Hash, o: string, a: Attestation) {
    exists o', a' :: !SameTriple(o, a, o', a') && ReplayKey(sha, o, a) == ReplayKey(sha, o', a')
      && !Collision(sha, KeyInputs(o, a, o', a'))
  }

  /** That happens exactly when the hashed text can be cut at another pair of bars. */
  lemma SharesKeyIff(sha: Hash, o: string, a: Attestation)
    ensures SharesKey(sha, o, a) <==> OtherSplit(o, a)
  {
    hide Trim, Utf8, HexEncode, OtherSplit, SameTriple, NonceText;
    SharesTextIff(o, a);
    if SharesKey(sha, o, a) {
      var o', a' :| !SameTriple(o, a, o', a') && ReplayKey(sha, o, a) == ReplayKey(sha, o', a')
        && !Collision(sha, KeyInputs(o, a, o', a'));
      ReplayKeysSeparate(sha, o, a, o', a');
    }
    if SharesText(o, a) {
      var o', a' :| !SameTriple(o, a, o', a') && NonceText(o, a) == NonceText(o', a');
      assert ReplayKey(sha, o, a) == ReplayKey(sha, o', a') && !Collision(sha, KeyInputs(o, a, o', a'));
    }
  }

  /** Organizations and key ids without bars never need the second case. */
  lemma BarFreeKeysSeparate(sha: Hash, o: string, a: Attestation, o': string, a': Attestation)
    requires '|' !in Trim(o) && '|' !in Trim(o') && '|' !in Trim(a.keyId) && '|' !in Trim(a'.keyId)
    ensures ReplayKey(sha, o, a) == ReplayKey(sha, o', a') ==>
      SameTriple(o, a, o', a') || Collision(sha, KeyInputs(o, a, o', a'))
  {
    hide Trim, Utf8, HexEncode, Collision, KeyInputs;
    if ReplayKey(sha, o, a) == ReplayKey(sha, o', a') {
      SameKeySameText(sha, o, a, o', a');
      if NonceText(o, a) == NonceText(o', a') {
        var x, x' := Trim(a.keyId) + "|" + Trim(a.nonce), Trim(a'.keyId) + "|" + Trim(a'.nonce);
        assert NonceText(o, a) == Trim(o) + "|" + x && NonceText(o', a') == Trim(o') + "|" + x';
        SeparatorSplits('|', Trim(o), x, Trim(o'), x');
        SeparatorSplits('|', Trim(a.keyId), Trim(a.nonce), Trim(a'.keyId), Trim(a'.nonce));
      }
    }
  }

  /**
   With bars it happens: two organizations with different trusted keys, both requests verified,
   and the second is refused as a replay of the first.
   */
  lemma BarsCanShareKey(env: Service)
    requires env.macOk == AnyMac && "c" in env.trusted && "b|c" in env.trusted
    ensures var x, y := SampleAttempt("a|b", "c", 1050), SampleAttempt("a", "b|c", 1051);
      && VerifyAttempt(env, x).Ok? && VerifyAttempt(env, y).Ok?
      && !SameTriple("a|b", x.request.attestation, "a", y.request.attestation)
      && Accepted(env, [x, y], 0) && ReplyTo(env, [x, y], 1) == Err(ReplayDetected)
  {
    var x, y := SampleAttempt("a|b", "c", 1050), SampleAttempt("a", "b|c", 1051);
    assert IsPlain("a|b") && IsPlain("a") && IsPlain("c") && IsPlain("b|c");
    hide IsPlain, Trim, ZeroSignature, VerifyAttempt, HexEncode, Utf8;
    SampleVerifies(env, "a|b", "c", 1050);
    SampleVerifies(env, "a", "b|c", 1051);
    PlainText("a|b");
    PlainText("a");
    PlainText("c");
    PlainText("b|c");
    assert NonceText("a|b", x.request.attestation) == NonceText("a", y.request.attestation) by {
      BarText(Trim("n"));
    }
    assert KeyOf(env.sha, x) == KeyOf(env.sha, y);
    SecondRefused(env, x, y);
  }

  lemma BarText(n: string)
    ensures "a|b" + "|" + "c" + "|" + n == "a" + "|" + "b|c" + "|" + n
  {
  }

  /** The second claim of a key that is still kept is answered as a replay. */
  lemma SecondRefused(env: Service, x: Attempt, y: Attempt)
    requires VerifyAttempt(env, x).Ok? && VerifyAttempt(env, y).Ok? && x.link == Up && y.link == Up
    requires KeyOf(env.sha, x) == KeyOf(env.sha, y) && y.at < LapsesAt(env, x)
    ensures Accepted(env, [x, y], 0) && ReplyTo(env, [x, y], 1) == Err(ReplayDetected)
  {
    var xs := [x, y];
    assert xs[0] == x && xs[1] == y;
    assert StoreAfter(env, xs, 0) == map[];
    HandleDecides(env, StoreAfter(env, xs, 0), x);
    assert StoreAfter(env, xs, 1) == Handle(env, StoreAfter(env, xs, 0), x).1;
    HandleDecides(env, StoreAfter(env, xs, 1), y);
  }
}
