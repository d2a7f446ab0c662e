/**
 The texts signed for Kwil writes. Bars and equals signs are escaped by a backslash but
 backslashes are not escaped themselves; the texts still determine what they print.
 */
module KwilText {
  import opened Bytes
  import opened SignedText

  // ---------------------------------------------------------------- escaping

  /** `str::replace` of one character. */
  function Replace(v: string, c: char, with: string): string {
    if v == "" then "" else ReplaceChar(v[0], c, with) + Replace(v[1..], c, with)
  }

  function ReplaceChar(x: char, c: char, with: string): string {
    if x == c then with else [x]
  }

  function EncodePayloadValue(v: string): string {
    Replace(Replace(v, '|', "\\|"), '=', "\\=")
  }

  /** The two replacements in one pass. */
  function Escaped(v: string): string {
    if v == "" then "" else EscapeChar(v[0]) + Escaped(v[1..])
  }

  function EscapeChar(c: char): string {
    if c == '|' then "\\|" else if c == '=' then "\\=" else [c]
  }

  lemma ReplaceCons(x: char, v: string, c: char, with: string)
    ensures Replace([x] + v, c, with) == ReplaceChar(x, c, with) + Replace(v, c, with)
  {
    assert ([x] + v)[1..] == v;
  }

  lemma {:induction false} ReplacementsEscape(v: string)
    ensures EncodePayloadValue(v) == Escaped(v)
  {
    if v != "" {
      ReplacementsEscape(v[1..]);
      var inner := Replace(v[1..], '|', "\\|");
      ReplaceCons(v[0], v[1..], '|', "\\|");
      assert v == [v[0]] + v[1..];
      hide Replace;
      if v[0] == '|' {
        ReplaceCons('|', inner, '=', "\\=");
        ReplaceCons('\\', "|" + inner, '=', "\\=");
        assert "\\|" + inner == "\\" + ("|" + inner);
      } else {
        ReplaceCons(v[0], inner, '=', "\\=");
      }
    }
  }

  /** Undoes the escaping: a backslash right before a bar or an equals sign goes. */
  function Unescaped(t: string): string {
    if t == "" then ""
    else if |t| >= 2 && t[0] == '\\' && (t[1] == '|' || t[1] == '=') then [t[1]] + Unescaped(t[2..])
    else [t[0]] + Unescaped(t[1..])
  }

  /** Escaped text never starts with a bar or an equals sign. */
  lemma EscapedHead(v: string)
    ensures Escaped(v) != "" ==> Escaped(v)[0] != '|' && Escaped(v)[0] != '='
  {
  }

  /** Although backslashes are left alone, nothing is lost, and no bare equals sign remains. */
  lemma {:induction false} EscapeRoundTrip(v: string)
    ensures Unescaped(Escaped(v)) == v && NoBareEquals(Escaped(v))
  {
    if v != "" {
      EscapeRoundTrip(v[1..]);
      EscapedHead(v[1..]);
      var rest := Escaped(v[1..]);
      EscapeCharUndone(v[0], rest);
      assert v == [v[0]] + v[1..];
    }
  }

  lemma EscapeCharUndone(c: char, rest: string)
    requires NoBareEquals(rest) && (rest != "" ==> rest[0] != '|' && rest[0] != '=')
    ensures Unescaped(EscapeChar(c) + rest) == [c] + Unescaped(rest)
    ensures NoBareEquals(EscapeChar(c) + rest)
  {
    var t := EscapeChar(c) + rest;
    if c == '|' || c == '=' {
      assert t[0] == '\\' && t[1] == c && t[2..] == rest;
      forall i | 0 <= i < |t| && t[i] == '='
        ensures i > 0 && t[i - 1] == '\\'
      {
        if i > 1 {
          assert rest[i - 2] == '=';
        }
      }
    } else {
      assert t[0] == c && t[1..] == rest;
      forall i | 0 <= i < |t| && t[i] == '='
        ensures i > 0 && t[i - 1] == '\\'
      {
        assert rest[i - 1] == '=';
      }
    }
  }

  /** Escaping works character by character: a backslash before each bar and each equals sign. */
  lemma EncodeChar(c: char)
    ensures EncodePayloadValue([c]) == if c == '|' then ['\\', '|'] else if c == '=' then ['\\', '='] else [c]
  {
    ReplacementsEscape([c]);
    var rest := [c][1..];
    assert Escaped(rest) == "" && Escaped([c]) == EscapeChar(c) + Escaped(rest);
  }

  lemma EncodeConcat(v: string, w: string)
    ensures EncodePayloadValue(v + w) == EncodePayloadValue(v) + EncodePayloadValue(w)
  {
    ReplacementsEscape(v);
    ReplacementsEscape(w);
    ReplacementsEscape(v + w);
    EscapedConcat(v, w);
  }

  lemma {:induction false} EscapedConcat(v: string, w: string)
    ensures Escaped(v + w) == Escaped(v) + Escaped(w)
  {
    hide EscapeChar;
    if v == "" {
      assert v + w == w;
    } else {
      assert (v + w)[1..] == v[1..] + w;
      EscapedConcat(v[1..], w);
    }
  }

  lemma EncodedIsSafe(v: string)
    ensures NoBareEquals(EncodePayloadValue(v))
  {
    ReplacementsEscape(v);
    EscapeRoundTrip(v);
  }

  lemma EncodeInjective(v: string, w: string)
    requires EncodePayloadValue(v) == EncodePayloadValue(w)
    ensures v == w
  {
    hide EncodePayloadValue, Escaped, Unescaped;
    ReplacementsEscape(v);
    ReplacementsEscape(w);
    EscapeRoundTrip(v);
    EscapeRoundTrip(w);
  }

  // ---------------------------------------------------------------- payloads

  /** What `{:?}` prints for a float. */
  type FloatText = s: string | forall i :: 0 <= i < |s| ==> IsFloatChar(s[i]) witness "0.0"

  predicate IsFloatChar(c: char) {
    || '0' <= c <= '9' || c == '.' || c == '-' || c == '+'
    || c == 'e' || c == 'i' || c == 'n' || c == 'f' || c == 'N' || c == 'a'
  }

  datatype Fiat = Absent | Present(text: FloatText)

  function FiatText(f: Fiat): string {
    match f
    case Absent => "None"
    case Present(text) => "Some(" + text + ")"
  }

  datatype Payload =
    | Block(hash: string, height: nat, blockType: string, state: string, createdAt: string)
    | StateRoot(height: nat, root: string, createdAt: string)
    | MmrNode(pos: nat, hash: string, height: nat, createdAt: string)
    | Proposal(proposalId: string, externalId: string, source: string, status: string,
               initHeight: nat, unlockHeight: nat, createdAt: string)
    | SettlementLog(reference: string, source: string, fiat: Fiat, createdAt: string)

  /** The text before the first bar. */
  function KindPrefix(p: Payload): string {
    match p
    case Block(_, _, _, _, _) => "nexus:kwil:block:v1"
    case StateRoot(_, _, _) => "nexus:kwil:state_root:v1"
    case MmrNode(_, _, _, _) => "nexus:kwil:mmr_node:v1"
    case Proposal(_, _, _, _, _, _, _) => "nexus:kwil:settlement_proposal:v1"
    case SettlementLog(_, _, _, _) => "nexus:kwil:settlement_log:v1"
  }

  function NamesOf(p: Payload): seq<string> {
    match p
    case Block(_, _, _, _, _) => ["hash", "height", "type", "state", "created_at"]
    case StateRoot(_, _, _) => ["height", "root", "created_at"]
    case MmrNode(_, _, _, _) => ["pos", "hash", "height", "created_at"]
    case Proposal(_, _, _, _, _, _, _) =>
      ["proposal_id", "external_id", "source", "status", "init_height", "unlock_height", "created_at"]
    case SettlementLog(_, _, _, _) => ["external_tx_reference", "source", "fiat_value", "created_at"]
  }

  function ValuesOf(p: Payload): (vs: seq<string>)
    ensures |vs| == |NamesOf(p)|
  {
    match p
    case Block(hash, height, blockType, state, createdAt) =>
      [EncodePayloadValue(hash), Decimal(height), EncodePayloadValue(blockType), EncodePayloadValue(state),
       EncodePayloadValue(createdAt)]
    case StateRoot(height, root, createdAt) =>
      [Decimal(height), EncodePayloadValue(root), EncodePayloadValue(createdAt)]
    case MmrNode(pos, hash, height, createdAt) =>
      [Decimal(pos), EncodePayloadValue(hash), Decimal(height), EncodePayloadValue(createdAt)]
    case Proposal(proposalId, externalId, source, status, initHeight, unlockHeight, createdAt) =>
      [EncodePayloadValue(proposalId), EncodePayloadValue(externalId), EncodePayloadValue(source),
       EncodePayloadValue(status), Decimal(initHeight), Decimal(unlockHeight), EncodePayloadValue(createdAt)]
    case SettlementLog(reference, source, fiat, createdAt) =>
      [EncodePayloadValue(reference), EncodePayloadValue(source), FiatText(fiat), EncodePayloadValue(createdAt)]
  }

  function SignedPayload(p: Payload): string {
    KindPrefix(p) + Render(LabelsOf(NamesOf(p)), ValuesOf(p))
  }

  lemma StoreNames()
    ensures IsName("hash") && IsName("height") && IsName("type") && IsName("state") && IsName("created_at")
    ensures IsName("root") && IsName("pos")
  {
  }

  lemma SettlementNames()
    ensures IsName("proposal_id") && IsName("external_id") && IsName("source") && IsName("status")
    ensures IsName("init_height") && IsName("unlock_height") && IsName("external_tx_reference") && IsName("fiat_value")
  {
  }

  lemma NamesAreNames(p: Payload)
    ensures forall i :: 0 <= i < |NamesOf(p)| ==> IsName(NamesOf(p)[i])
  {
    StoreNames();
    SettlementNames();
    hide IsName;
  }

  /** First letter and length tell the names of one kind apart. */
  lemma NamesDistinct(p: Payload)
    ensures Distinct(NamesOf(p))
  {
    var ns := NamesOf(p);
    var marks := match p
      case Block(_, _, _, _, _) => [('h', 4), ('h', 6), ('t', 4), ('s', 5), ('c', 10)]
      case StateRoot(_, _, _) => [('h', 6), ('r', 4), ('c', 10)]
      case MmrNode(_, _, _, _) => [('p', 3), ('h', 4), ('h', 6), ('c', 10)]
      case Proposal(_, _, _, _, _, _, _) =>
        [('p', 11), ('e', 11), ('s', 6), ('s', 6), ('i', 11), ('u', 13), ('c', 10)]
      case SettlementLog(_, _, _, _) => [('e', 21), ('s', 6), ('f', 10), ('c', 10)];
    assert |ns| == |marks| && forall i :: 0 <= i < |ns| ==> ns[i] != "" && (ns[i][0], |ns[i]|) == marks[i];
    assert p.Proposal? ==> ns[2][1] == 'o' && ns[3][1] == 't';
    assert forall i, j :: 0 <= i < j < |ns| ==> marks[i] != marks[j] || (p.Proposal? && i == 2 && j == 3);
    hide NamesOf;
  }

  lemma AllEncodedSafe()
    ensures forall v :: NoBareEquals(EncodePayloadValue(v))
    ensures forall n :: NoBareEquals(Decimal(n))
  {
    forall v
      ensures NoBareEquals(EncodePayloadValue(v))
    {
      EncodedIsSafe(v);
    }
  }

  lemma FiatIsSafe(f: Fiat)
    ensures NoBareEquals(FiatText(f))
  {
    if f.Present? {
      var t := FiatText(f);
      forall i | 0 <= i < |t|
        ensures t[i] != '='
      {
        if 5 <= i < |t| - 1 {
          assert t[i] == f.text[i - 5] && IsFloatChar(f.text[i - 5]);
        }
      }
    }
  }

  lemma ValuesAreSafe(p: Payload)
    ensures forall i :: 0 <= i < |ValuesOf(p)| ==> NoBareEquals(ValuesOf(p)[i])
  {
    hide NoBareEquals, EncodePayloadValue, Decimal, FiatText, NamesOf;
    AllEncodedSafe();
    if p.SettlementLog? {
      FiatIsSafe(p.fiat);
    }
  }

  lemma FiatInjective(f: Fiat, g: Fiat)
    requires FiatText(f) == FiatText(g)
    ensures f == g
  {
    var s, t := FiatText(f), FiatText(g);
    assert s[0] == t[0];
    if f.Present? {
      assert f.text == s[5..|s| - 1] && g.text == t[5..|t| - 1];
    }
  }

  predicate SameKind(p: Payload, q: Payload) {
    && p.Block? == q.Block? && p.StateRoot? == q.StateRoot? && p.MmrNode? == q.MmrNode?
    && p.Proposal? == q.Proposal? && p.SettlementLog? == q.SettlementLog?
  }

  lemma PrefixesDiffer(p: Payload, q: Payload)
    ensures '|' !in KindPrefix(p)
    ensures KindPrefix(p) == KindPrefix(q) ==> SameKind(p, q) && NamesOf(p) == NamesOf(q)
  {
    var n := match p
      case Block(_, _, _, _, _) => 19
      case StateRoot(_, _, _) => 24
      case MmrNode(_, _, _, _) => 22
      case Proposal(_, _, _, _, _, _, _) => 33
      case SettlementLog(_, _, _, _) => 28;
    assert |KindPrefix(p)| == n;
  }

  lemma PayloadReadable(p: Payload)
    ensures Readable(NamesOf(p), ValuesOf(p))
  {
    NamesAreNames(p);
    NamesDistinct(p);
    ValuesAreSafe(p);
    hide NamesOf, ValuesOf, IsName, NoBareEquals;
  }

  /** The text before the first bar tells the kind. */
  lemma KindRead(p: Payload)
    ensures UpTo(SignedPayload(p), "|") == KindPrefix(p)
  {
    PrefixesDiffer(p, p);
    PrefixRead(KindPrefix(p), NamesOf(p), ValuesOf(p));
  }

  /** Every value is read back from between its own label and the next. */
  lemma ValueRead(p: Payload, k: nat)
    requires k < |NamesOf(p)|
    ensures var ns := NamesOf(p);
      NextField(SignedPayload(p), ns[k], if k + 1 < |ns| then ns[k + 1] else "") == Some(ValuesOf(p)[k])
  {
    PayloadReadable(p);
    PrefixesDiffer(p, p);
    hide NamesOf, ValuesOf, KindPrefix, Readable, Render, NextField, BarField, Place;
    FieldRead(KindPrefix(p), NamesOf(p), ValuesOf(p), k);
  }

  // ---------------------------------------------------------------- the fields by name

  /** A text field between two labels, unescaped. */
  function TextField(t: string, name: string, next: string): Option<string> {
    match NextField(t, name, next)
    case None => None
    case Some(v) => Some(Unescaped(v))
  }

  function NumberField(t: string, name: string, next: string): Option<int> {
    match NextField(t, name, next)
    case None => None
    case Some(v) => Some(DecimalValue(v))
  }

  lemma EncodedReadsBack(v: string)
    ensures Unescaped(EncodePayloadValue(v)) == v
  {
    ReplacementsEscape(v);
    EscapeRoundTrip(v);
  }

  lemma BlockFields(hash: string, height: nat, blockType: string, state: string, createdAt: string)
    ensures var t := SignedPayload(Block(hash, height, blockType, state, createdAt));
      && UpTo(t, "|") == "nexus:kwil:block:v1"
      && TextField(t, "hash", "height") == Some(hash)
      && NumberField(t, "height", "type") == Some(height)
      && TextField(t, "type", "state") == Some(blockType)
      && TextField(t, "state", "created_at") == Some(state)
      && TextField(t, "created_at", "") == Some(createdAt)
  {
    var p := Block(hash, height, blockType, state, createdAt);
    hide Unescaped, EncodePayloadValue, Decimal, DecimalValue, SignedPayload, NextField, UpTo;
    KindRead(p);
    ValueRead(p, 0);
    ValueRead(p, 1);
    ValueRead(p, 2);
    ValueRead(p, 3);
    ValueRead(p, 4);
    EncodedReadsBack(hash);
    DecimalReadsBack(height);
    EncodedReadsBack(blockType);
    EncodedReadsBack(state);
    EncodedReadsBack(createdAt);
  }

  lemma StateRootFields(height: nat, root: string, createdAt: string)
    ensures var t := SignedPayload(StateRoot(height, root, createdAt));
      && UpTo(t, "|") == "nexus:kwil:state_root:v1"
      && NumberField(t, "height", "root") == Some(height)
      && TextField(t, "root", "created_at") == Some(root)
      && TextField(t, "created_at", "") == Some(createdAt)
  {
    var p := StateRoot(height, root, createdAt);
    hide Unescaped, EncodePayloadValue, Decimal, DecimalValue, SignedPayload, NextField, UpTo;
    KindRead(p);
    ValueRead(p, 0);
    ValueRead(p, 1);
    ValueRead(p, 2);
    DecimalReadsBack(height);
    EncodedReadsBack(root);
    EncodedReadsBack(createdAt);
  }

  lemma MmrNodeFields(pos: nat, hash: string, height: nat, createdAt: string)
    ensures var t := SignedPayload(MmrNode(pos, hash, height, createdAt));
      && UpTo(t, "|") == "nexus:kwil:mmr_node:v1"
      && NumberField(t, "pos", "hash") == Some(pos)
      && TextField(t, "hash", "height") == Some(hash)
      && NumberField(t, "height", "created_at") == Some(height)
      && TextField(t, "created_at", "") == Some(createdAt)
  {
    var p := MmrNode(pos, hash, height, createdAt);
    hide Unescaped, EncodePayloadValue, Decimal, DecimalValue, SignedPayload, NextField, UpTo;
    KindRead(p);
    ValueRead(p, 0);
    ValueRead(p, 1);
    ValueRead(p, 2);
    ValueRead(p, 3);
    DecimalReadsBack(pos);
    EncodedReadsBack(hash);
    DecimalReadsBack(height);
    EncodedReadsBack(createdAt);
  }

  lemma ProposalFields(proposalId: string, externalId: string, source: string, status: string,
                       initHeight: nat, unlockHeight: nat, createdAt: string)
    ensures var t :=
        SignedPayload(Proposal(proposalId, externalId, source, status, initHeight, unlockHeight, createdAt));
      && UpTo(t, "|") == "nexus:kwil:settlement_proposal:v1"
      && TextField(t, "proposal_id", "external_id") == Some(proposalId)
      && TextField(t, "external_id", "source") == Some(externalId)
      && TextField(t, "source", "status") == Some(source)
      && TextField(t, "status", "init_height") == Some(status)
      && NumberField(t, "init_height", "unlock_height") == Some(initHeight)
      && NumberField(t, "unlock_height", "created_at") == Some(unlockHeight)
      && TextField(t, "created_at", "") == Some(createdAt)
  {
    var p := Proposal(proposalId, externalId, source, status, initHeight, unlockHeight, createdAt);
    hide Unescaped, EncodePayloadValue, Decimal, DecimalValue, SignedPayload, NextField, UpTo;
    KindRead(p);
    ValueRead(p, 0);
    ValueRead(p, 1);
    ValueRead(p, 2);
    ValueRead(p, 3);
    ValueRead(p, 4);
    ValueRead(p, 5);
    ValueRead(p, 6);
    EncodedReadsBack(proposalId);
    EncodedReadsBack(externalId);
    EncodedReadsBack(source);
    EncodedReadsBack(status);
    DecimalReadsBack(initHeight);
    DecimalReadsBack(unlockHeight);
    EncodedReadsBack(createdAt);
  }

  lemma SettlementLogFields(reference: string, source: string, fiat: Fiat, createdAt: string)
    ensures var t := SignedPayload(SettlementLog(reference, source, fiat, createdAt));
      && UpTo(t, "|") == "nexus:kwil:settlement_log:v1"
      && TextField(t, "external_tx_reference", "source") == Some(reference)
      && TextField(t, "source", "fiat_value") == Some(source)
      && NextField(t, "fiat_value", "created_at") ==
        Some(match fiat case Absent => "None" case Present(text) => "Some(" + text + ")")
      && TextField(t, "created_at", "") == Some(createdAt)
  {
    var p := SettlementLog(reference, source, fiat, createdAt);
    hide Unescaped, EncodePayloadValue, Decimal, DecimalValue, SignedPayload, NextField, UpTo;
    KindRead(p);
    ValueRead(p, 0);
    ValueRead(p, 1);
    ValueRead(p, 2);
    ValueRead(p, 3);
    EncodedReadsBack(reference);
    EncodedReadsBack(source);
    EncodedReadsBack(createdAt);
  }

  lemma SameValuesSamePayload(p: Payload, q: Payload)
    requires SameKind(p, q) && ValuesOf(p) == ValuesOf(q)
    ensures p == q
  {
    hide NamesOf, EncodePayloadValue, Decimal, FiatText;
    var vs, ws := ValuesOf(p), ValuesOf(q);
    assert forall i :: 0 <= i < |vs| ==> vs[i] == ws[i];
    match p
    case Block(hash, height, blockType, state, createdAt) =>
      EncodeInjective(hash, q.hash);
      DecimalInjective(height, q.height);
      EncodeInjective(blockType, q.blockType);
      EncodeInjective(state, q.state);
      EncodeInjective(createdAt, q.createdAt);
    case StateRoot(height, root, createdAt) =>
      DecimalInjective(height, q.height);
      EncodeInjective(root, q.root);
      EncodeInjective(createdAt, q.createdAt);
    case MmrNode(pos, hash, height, createdAt) =>
      DecimalInjective(pos, q.pos);
      EncodeInjective(hash, q.hash);
      DecimalInjective(height, q.height);
      EncodeInjective(createdAt, q.createdAt);
    case Proposal(proposalId, externalId, source, status, initHeight, unlockHeight, createdAt) =>
      EncodeInjective(proposalId, q.proposalId);
      EncodeInjective(externalId, q.externalId);
      EncodeInjective(source, q.source);
      EncodeInjective(status, q.status);
      DecimalInjective(initHeight, q.initHeight);
      DecimalInjective(unlockHeight, q.unlockHeight);
      EncodeInjective(createdAt, q.createdAt);
    case SettlementLog(reference, source, fiat, createdAt) =>
      EncodeInjective(reference, q.reference);
      EncodeInjective(source, q.source);
      FiatInjective(fiat, q.fiat);
      EncodeInjective(createdAt, q.createdAt);
  }

  /** A signed text determines its kind and every field printed in it. */
  lemma SignedTextDeterminesPayload(p: Payload, q: Payload)
    requires SignedPayload(p) == SignedPayload(q)
    ensures p == q
  {
    KindRead(p);
    KindRead(q);
    PrefixesDiffer(p, q);
    PayloadReadable(p);
    PayloadReadable(q);
    hide NamesOf, ValuesOf, KindPrefix, Readable, Render, UpTo;
    TextInjective(KindPrefix(p), NamesOf(p), ValuesOf(p), ValuesOf(q));
    SameValuesSamePayload(p, q);
  }
}
