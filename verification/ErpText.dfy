/**
 The canonical text an ERP attestation signs: percent-escaped fields joined under fixed
 labels, and what that text determines.
 */
module ErpText {
  import opened Bytes
  import opened SignedText

  datatype Attestation = Attestation(keyId: string, nonce: string, issuedAt: int, expiresAt: int, signature: string)

  datatype Request = Request(organizationId: string, erpType: string, timestamp: int, attestation: Attestation)

  // ---------------------------------------------------------------- escaping

  predicate IsReserved(c: char) {
    c == '%' || c == '|' || c == '=' || c == ','
  }

  function Escape(c: char): string {
    match c
    case '%' => "%25"
    case '|' => "%7C"
    case '=' => "%3D"
    case ',' => "%2C"
    case _ => [c]
  }

  function Encode(value: string): string {
    if value == "" then "" else Escape(value[0]) + Encode(value[1..])
  }

  /** The escaping loop. */
  method EncodePayloadValue(value: string) returns (out: string)
    ensures out == Encode(value)
  {
    hide Escape;
    out := "";
    for i := 0 to |value|
      invariant out + Encode(value[i..]) == Encode(value)
    {
      assert value[i..][1..] == value[i + 1..];
      ghost var rest := Encode(value[i + 1..]);
      assert out + (Escape(value[i]) + rest) == (out + Escape(value[i])) + rest;
      out := out + Escape(value[i]);
    }
  }

  function UpperHex(n: nat): char
    requires n < 16
  {
    if n < 10 then '0' + n as char else 'A' + (n - 10) as char
  }

  /** Reserved characters take the percent-encoded form of section 2.1 of RFC 3986. */
  lemma EscapeIsPercentEncoded(c: char)
    requires IsReserved(c)
    ensures Escape(c) == ['%', UpperHex(c as nat / 16), UpperHex(c as nat % 16)]
  {
  }

  /** Percent-decoding of the four escapes. */
  function Decode(text: string): string {
    if |text| < 3 || text[0] != '%' then (if text == "" then "" else [text[0]] + Decode(text[1..]))
    else [Unescape(text[1], text[2])] + Decode(text[3..])
  }

  function Unescape(a: char, b: char): char {
    match (a, b)
    case ('2', '5') => '%'
    case ('7', 'C') => '|'
    case ('3', 'D') => '='
    case _ => ','
  }

  /** Escaped text has no separator left in it, and decodes to the original. */
  lemma {:induction false} EncodeRoundTrip(value: string)
    ensures Decode(Encode(value)) == value
    ensures forall i :: 0 <= i < |Encode(value)| ==>
      Encode(value)[i] != '|' && Encode(value)[i] != '=' && Encode(value)[i] != ','
  {
    if value != "" {
      EncodeRoundTrip(value[1..]);
      EscapeDecodes(value[0], Encode(value[1..]));
      assert value == [value[0]] + value[1..];
    }
  }

  lemma EscapeDecodes(c: char, rest: string)
    ensures Decode(Escape(c) + rest) == [c] + Decode(rest)
    ensures forall i :: 0 <= i < |Escape(c)| ==> Escape(c)[i] != '|' && Escape(c)[i] != '=' && Escape(c)[i] != ','
  {
    var t := Escape(c) + rest;
    if IsReserved(c) {
      assert t[3..] == rest;
      assert t[0] == '%' && |t| >= 3;
    } else {
      assert t[0] == c && t[1..] == rest;
    }
  }

  /** Escaping works character by character: the four reserved ones in percent form, the others as they are. */
  lemma EncodeChar(c: char)
    ensures Encode([c]) == if IsReserved(c) then ['%', UpperHex(c as nat / 16), UpperHex(c as nat % 16)] else [c]
    ensures IsReserved(c) <==> c in "%|=,"
  {
    var rest := [c][1..];
    assert Encode(rest) == "";
    assert Encode([c]) == Escape(c) + Encode(rest);
    if IsReserved(c) {
      EscapeIsPercentEncoded(c);
    }
  }

  lemma {:induction false} EncodeConcat(a: string, b: string)
    ensures Encode(a + b) == Encode(a) + Encode(b)
  {
    hide Escape;
    if a == "" {
      assert a + b == b;
    } else {
      assert (a + b)[1..] == a[1..] + b;
      EncodeConcat(a[1..], b);
    }
  }

  lemma EncodeInjective(a: string, b: string)
    requires Encode(a) == Encode(b)
    ensures a == b
  {
    EncodeRoundTrip(a);
    EncodeRoundTrip(b);
  }

  // ---------------------------------------------------------------- transaction lists

  function Join(ids: seq<string>): string
    requires ids != []
  {
    if |ids| == 1 then Encode(ids[0]) else Encode(ids[0]) + "," + Join(ids[1..])
  }

  function EncodeList(ids: seq<string>): string {
    if ids == [] then "-" else Join(ids)
  }

  lemma {:induction false} JoinInjective(a: seq<string>, b: seq<string>)
    requires a != [] && b != [] && Join(a) == Join(b)
    ensures a == b
  {
    EncodeRoundTrip(a[0]);
    EncodeRoundTrip(b[0]);
    hide Encode, Decode;
    assert |a| > 1 ==> Join(a)[|Encode(a[0])|] == ',';
    assert |b| > 1 ==> Join(b)[|Encode(b[0])|] == ',';
    if |a| > 1 && |b| > 1 {
      SeparatorSplits(',', Encode(a[0]), Join(a[1..]), Encode(b[0]), Join(b[1..]));
      JoinInjective(a[1..], b[1..]);
      assert a == [a[0]] + a[1..] && b == [b[0]] + b[1..];
    }
  }

  /** The printed list determines the list, except that no ids and the one id "-" print alike. */
  predicate SameList(a: seq<string>, b: seq<string>) {
    a == b || (a in {[], ["-"]} && b in {[], ["-"]})
  }

  lemma DashListPrints()
    ensures EncodeList(["-"]) == "-"
  {
    assert Encode("") == "";
    assert Encode("-") == "-" + Encode("-"[1..]);
  }

  lemma ListTextDetermines(a: seq<string>, b: seq<string>)
    ensures EncodeList(a) == EncodeList(b) <==> SameList(a, b)
  {
    DashListPrints();
    hide Encode;
    if EncodeList(a) == EncodeList(b) {
      if a != [] && b != [] {
        JoinInjective(a, b);
      } else if a != [] {
        JoinInjective(a, ["-"]);
      } else if b != [] {
        JoinInjective(b, ["-"]);
      }
    }
  }

  lemma {:induction false} ListHasNoBar(ids: seq<string>)
    ensures forall i :: 0 <= i < |EncodeList(ids)| ==> EncodeList(ids)[i] != '|' && EncodeList(ids)[i] != '='
  {
    if ids != [] {
      EncodeRoundTrip(ids[0]);
      hide Encode, Decode;
      if |ids| > 1 {
        ListHasNoBar(ids[1..]);
        assert EncodeList(ids) == Encode(ids[0]) + "," + EncodeList(ids[1..]);
      }
    }
  }

  // ---------------------------------------------------------------- trimming

  /** The code points of Unicode's White_Space property, one by one. */
  const WHITE_SPACE: set<int> :=
    {0x09, 0x0A, 0x0B, 0x0C, 0x0D, 0x20, 0x85, 0xA0, 0x1680, 0x2000, 0x2001, 0x2002, 0x2003, 0x2004, 0x2005, 0x2006,
     0x2007, 0x2008, 0x2009, 0x200A, 0x2028, 0x2029, 0x202F, 0x205F, 0x3000}

  lemma WhiteSpaceListed(c: char)
    ensures IsWhitespace(c) <==> c as int in WHITE_SPACE
  {
  }

  /** Unicode White_Space, as `char::is_whitespace` has it. */
  predicate IsWhitespace(c: char) {
    var n := c as int;
    0x09 <= n <= 0x0D || n == 0x20 || n == 0x85 || n == 0xA0 || n == 0x1680 || 0x2000 <= n <= 0x200A
    || n == 0x2028 || n == 0x2029 || n == 0x202F || n == 0x205F || n == 0x3000
  }

  function TrimStart(s: string): string {
    if s != "" && IsWhitespace(s[0]) then TrimStart(s[1..]) else s
  }

  function TrimEnd(s: string): string {
    if s != "" && IsWhitespace(s[|s| - 1]) then TrimEnd(s[..|s| - 1]) else s
  }

  function Trim(s: string): string {
    TrimEnd(TrimStart(s))
  }

  // ---------------------------------------------------------------- the text

  const PREFIX: string := "nexus:erp:attestation:v1"

  function Names(): seq<string> {
    ["organization_id", "erp_type", "request_timestamp", "action", "tx_ids", "key_id", "nonce", "issued_at",
     "expires_at"]
  }

  function FieldTexts(r: Request, action: string, txIds: seq<string>): (vs: seq<string>)
    ensures |vs| == 9
  {
    [Encode(r.organizationId), Encode(r.erpType), Decimal(r.timestamp), Encode(action), EncodeList(txIds),
     Encode(Trim(r.attestation.keyId)), Encode(Trim(r.attestation.nonce)),
     Decimal(r.attestation.issuedAt), Decimal(r.attestation.expiresAt)]
  }

  function CanonicalText(r: Request, action: string, txIds: seq<string>): string {
    PREFIX + Render(LabelsOf(Names()), FieldTexts(r, action, txIds))
  }

  lemma NamesAreNames()
    ensures |Names()| == 9 && forall i :: 0 <= i < 9 ==> IsName(Names()[i])
  {
    assert IsName("organization_id");
    assert IsName("erp_type");
    assert IsName("request_timestamp");
    assert IsName("action");
    assert IsName("tx_ids");
    assert IsName("key_id");
    assert IsName("nonce");
    assert IsName("issued_at");
    assert IsName("expires_at");
    hide IsName;
  }

  /** First letter and length tell the names apart. */
  lemma NamesDistinct()
    ensures Distinct(Names())
  {
    var ns := Names();
    var marks := [('o', 15), ('e', 8), ('r', 17), ('a', 6), ('t', 6), ('k', 6), ('n', 5), ('i', 9), ('e', 10)];
    assert |ns| == 9 && forall i :: 0 <= i < 9 ==> ns[i] != "" && (ns[i][0], |ns[i]|) == marks[i];
    assert forall i, j :: 0 <= i < j < 9 ==> marks[i] != marks[j];
    hide Names;
  }

  lemma PrefixHasNoBar()
    ensures '|' !in PREFIX
  {
  }

  /** Neither bar nor equals sign. */
  predicate IsClean(v: string) {
    '|' !in v && '=' !in v
  }

  lemma EncodedIsClean(v: string)
    ensures IsClean(Encode(v))
  {
    EncodeRoundTrip(v);
  }

  lemma DecimalIsClean(n: int)
    ensures IsClean(Decimal(n))
  {
  }

  lemma ListIsClean(txIds: seq<string>)
    ensures IsClean(EncodeList(txIds))
  {
    ListHasNoBar(txIds);
  }

  lemma FieldsAreClean(r: Request, action: string, txIds: seq<string>)
    ensures forall i :: 0 <= i < 9 ==> IsClean(FieldTexts(r, action, txIds)[i])
  {
    hide Encode, Decimal, IsClean, Trim, EncodeList;
    EncodedIsClean(r.organizationId);
    EncodedIsClean(r.erpType);
    EncodedIsClean(action);
    EncodedIsClean(Trim(r.attestation.keyId));
    EncodedIsClean(Trim(r.attestation.nonce));
    DecimalIsClean(r.timestamp);
    DecimalIsClean(r.attestation.issuedAt);
    DecimalIsClean(r.attestation.expiresAt);
    ListIsClean(txIds);
  }

  lemma FieldsReadable(r: Request, action: string, txIds: seq<string>)
    ensures |Names()| == 9 && Readable(Names(), FieldTexts(r, action, txIds))
    ensures forall i :: 0 <= i < 9 ==> '|' !in FieldTexts(r, action, txIds)[i]
  {
    NamesAreNames();
    NamesDistinct();
    FieldsAreClean(r, action, txIds);
    hide Names, FieldTexts, IsName;
  }

  /** The signed content of a request. */
  ghost predicate SameContent(r: Request, action: string, txIds: seq<string>,
                              r': Request, action': string, txIds': seq<string>)
  {
    && r.organizationId == r'.organizationId && r.erpType == r'.erpType && r.timestamp == r'.timestamp
    && action == action' && SameList(txIds, txIds')
    && Trim(r.attestation.keyId) == Trim(r'.attestation.keyId)
    && Trim(r.attestation.nonce) == Trim(r'.attestation.nonce)
    && r.attestation.issuedAt == r'.attestation.issuedAt && r.attestation.expiresAt == r'.attestation.expiresAt
  }

  /** Two requests sign the same text exactly when they have the same content. */
  lemma TextDeterminesContent(r: Request, action: string, txIds: seq<string>,
                              r': Request, action': string, txIds': seq<string>)
    ensures CanonicalText(r, action, txIds) == CanonicalText(r', action', txIds')
      <==> SameContent(r, action, txIds, r', action', txIds')
  {
    var vs, vs' := FieldTexts(r, action, txIds), FieldTexts(r', action', txIds');
    ListTextDetermines(txIds, txIds');
    if CanonicalText(r, action, txIds) == CanonicalText(r', action', txIds') {
      FieldsReadable(r, action, txIds);
      FieldsReadable(r', action', txIds');
      PrefixHasNoBar();
      hide Encode, Decimal, Readable, Render, Names, EncodeList, Trim, PREFIX;
      TextInjective(PREFIX, Names(), vs, vs');
      assert forall i :: 0 <= i < 9 ==> vs[i] == vs'[i];
      EncodeInjective(r.organizationId, r'.organizationId);
      EncodeInjective(r.erpType, r'.erpType);
      EncodeInjective(action, action');
      EncodeInjective(Trim(r.attestation.keyId), Trim(r'.attestation.keyId));
      EncodeInjective(Trim(r.attestation.nonce), Trim(r'.attestation.nonce));
      DecimalInjective(r.timestamp, r'.timestamp);
      DecimalInjective(r.attestation.issuedAt, r'.attestation.issuedAt);
      DecimalInjective(r.attestation.expiresAt, r'.attestation.expiresAt);
    } else {
      hide Encode, Decimal, Render, Names, EncodeList, Trim;
    }
  }

  // ---------------------------------------------------------------- reading the text

  /** The escaped value of a field, undone. */
  function TextField(t: string, name: string): Option<string> {
    match BarField(t, name)
    case None => None
    case Some(v) => Some(Decode(v))
  }

  function NumberField(t: string, name: string): Option<int> {
    match BarField(t, name)
    case None => None
    case Some(v) => Some(DecimalValue(v))
  }

  /** Entries between commas, undone. */
  function DecodeEntries(v: string): seq<string>
    decreases |v|
  {
    match Find(v, ",")
    case None => [Decode(v)]
    case Some(i) => [Decode(v[..i])] + DecodeEntries(v[i + 1..])
  }

  function ListField(t: string, name: string): Option<seq<string>> {
    match BarField(t, name)
    case None => None
    case Some(v) => Some(if v == "-" then [] else DecodeEntries(v))
  }

  lemma {:induction false} EntriesReadBack(ids: seq<string>)
    requires ids != []
    ensures DecodeEntries(Join(ids)) == ids
  {
    EncodeRoundTrip(ids[0]);
    var first := Encode(ids[0]);
    assert ',' !in first;
    hide Encode, Decode;
    if |ids| == 1 {
      CharMissing(',', first);
    } else {
      var rest := Join(ids[1..]);
      var t := first + [','] + rest;
      assert Join(ids) == t;
      CharFound(',', first, rest);
      assert t[..|first|] == first && t[|first| + 1..] == rest;
      EntriesReadBack(ids[1..]);
      assert ids == [ids[0]] + ids[1..];
    }
  }

  lemma ListReadsBack(ids: seq<string>)
    ensures (if EncodeList(ids) == "-" then [] else DecodeEntries(EncodeList(ids))) == if ids == ["-"] then [] else ids
  {
    ListTextDetermines(ids, []);
    hide Encode;
    if ids != [] {
      EntriesReadBack(ids);
    }
  }

  /**
   The text begins with its version, and each field is read back from behind its own label: the
   text from there to the next bar is the escaped, printed or joined field of the request.
   */
  lemma FieldsByName(r: Request, action: string, txIds: seq<string>)
    ensures var t, a := CanonicalText(r, action, txIds), r.attestation;
      && UpTo(t, "|") == "nexus:erp:attestation:v1"
      && TextField(t, "organization_id") == Some(r.organizationId)
      && TextField(t, "erp_type") == Some(r.erpType)
      && NumberField(t, "request_timestamp") == Some(r.timestamp)
      && TextField(t, "action") == Some(action)
      && ListField(t, "tx_ids") == Some(if txIds == ["-"] then [] else txIds)
      && TextField(t, "key_id") == Some(Trim(a.keyId))
      && TextField(t, "nonce") == Some(Trim(a.nonce))
      && NumberField(t, "issued_at") == Some(a.issuedAt)
      && NumberField(t, "expires_at") == Some(a.expiresAt)
  {
    var t, vs := CanonicalText(r, action, txIds), FieldTexts(r, action, txIds);
    FieldsReadable(r, action, txIds);
    PrefixHasNoBar();
    PrefixRead(PREFIX, Names(), vs);
    assert forall k :: 0 <= k < 9 ==> BarField(t, Names()[k]) == Some(vs[k]) by {
      hide Names, FieldTexts, Readable, Render, BarField, NextField, Place;
      forall k | 0 <= k < 9
        ensures BarField(t, Names()[k]) == Some(vs[k])
      {
        FieldRead(PREFIX, Names(), vs, k);
      }
    }
    hide Render, Readable, BarField, UpTo, Encode, Decode, Decimal, DecimalValue, EncodeList, Trim, DecodeEntries;
    ValuesReadBack(r, action, txIds);
    ListReadsBack(txIds);
    NamedFields(t, vs);
  }

  lemma NamedFields(t: string, vs: seq<string>)
    requires |vs| == 9 && |Names()| == 9 && forall k :: 0 <= k < 9 ==> BarField(t, Names()[k]) == Some(vs[k])
    ensures BarField(t, "organization_id") == Some(vs[0]) && BarField(t, "erp_type") == Some(vs[1])
    ensures BarField(t, "request_timestamp") == Some(vs[2]) && BarField(t, "action") == Some(vs[3])
    ensures BarField(t, "tx_ids") == Some(vs[4]) && BarField(t, "key_id") == Some(vs[5])
    ensures BarField(t, "nonce") == Some(vs[6]) && BarField(t, "issued_at") == Some(vs[7])
    ensures BarField(t, "expires_at") == Some(vs[8])
  {
    hide BarField;
    var ns := Names();
    assert ns[0] == "organization_id" && ns[1] == "erp_type" && ns[2] == "request_timestamp";
    assert ns[3] == "action" && ns[4] == "tx_ids" && ns[5] == "key_id";
    assert ns[6] == "nonce" && ns[7] == "issued_at" && ns[8] == "expires_at";
  }

  lemma ValuesReadBack(r: Request, action: string, txIds: seq<string>)
    ensures var vs, a := FieldTexts(r, action, txIds), r.attestation;
      && Decode(vs[0]) == r.organizationId && Decode(vs[1]) == r.erpType && DecimalValue(vs[2]) == r.timestamp
      && Decode(vs[3]) == action && vs[4] == EncodeList(txIds)
      && Decode(vs[5]) == Trim(a.keyId) && Decode(vs[6]) == Trim(a.nonce)
      && DecimalValue(vs[7]) == a.issuedAt && DecimalValue(vs[8]) == a.expiresAt
  {
    hide Encode, Decode, Decimal, DecimalValue, EncodeList, Trim;
    EncodeRoundTrip(r.organizationId);
    EncodeRoundTrip(r.erpType);
    EncodeRoundTrip(action);
    EncodeRoundTrip(Trim(r.attestation.keyId));
    EncodeRoundTrip(Trim(r.attestation.nonce));
    DecimalReadsBack(r.timestamp);
    DecimalReadsBack(r.attestation.issuedAt);
    DecimalReadsBack(r.attestation.expiresAt);
  }

  /** The labels stand in this order. */
  lemma LabelsInOrder(r: Request, action: string, txIds: seq<string>)
    ensures var t := CanonicalText(r, action, txIds);
      && Place(t, "organization_id") < Place(t, "erp_type") < Place(t, "request_timestamp") < Place(t, "action")
      && Place(t, "action") < Place(t, "tx_ids") < Place(t, "key_id") < Place(t, "nonce")
      && Place(t, "nonce") < Place(t, "issued_at") < Place(t, "expires_at") < |t|
  {
    var t, vs := CanonicalText(r, action, txIds), FieldTexts(r, action, txIds);
    FieldsReadable(r, action, txIds);
    PrefixHasNoBar();
    assert forall k :: 0 <= k < 8 ==> Place(t, Names()[k]) < Place(t, Names()[k + 1]) by {
      hide Names, FieldTexts, Readable, Render, BarField, NextField, Place, Offset;
      forall k | 0 <= k < 8
        ensures Place(t, Names()[k]) < Place(t, Names()[k + 1])
      {
        FieldRead(PREFIX, Names(), vs, k);
        FieldRead(PREFIX, Names(), vs, k + 1);
        OffsetsRise(Names(), vs, k);
      }
    }
    assert Place(t, Names()[8]) < |t| by {
      hide Names, FieldTexts, Readable, Render, NextField;
      FieldRead(PREFIX, Names(), vs, 8);
    }
    hide Render, Readable, Place, FieldTexts;
    var ns := Names();
    assert ns[0] == "organization_id" && ns[1] == "erp_type" && ns[2] == "request_timestamp";
    assert ns[3] == "action" && ns[4] == "tx_ids" && ns[5] == "key_id";
    assert ns[6] == "nonce" && ns[7] == "issued_at" && ns[8] == "expires_at";
    hide Names;
    assert Place(t, ns[0]) < Place(t, ns[0 + 1]) && Place(t, ns[1]) < Place(t, ns[1 + 1]);
    assert Place(t, ns[2]) < Place(t, ns[2 + 1]) && Place(t, ns[3]) < Place(t, ns[3 + 1]);
    assert Place(t, ns[4]) < Place(t, ns[4 + 1]) && Place(t, ns[5]) < Place(t, ns[5 + 1]);
    assert Place(t, ns[6]) < Place(t, ns[6 + 1]) && Place(t, ns[7]) < Place(t, ns[7 + 1]);
  }
}
