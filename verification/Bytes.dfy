/**
 Bytes, digests and the two text encodings the proofs go through: UTF-8 for what is hashed
 and hexadecimal (section 8 of RFC 4648, lower case on output) for what is printed.
 SHA-256 itself is a function parameter: every theorem holds for every hash function, and
 binding is stated against collisions among the byte strings actually hashed.
 */
module Bytes {
  datatype Option<+T> = None | Some(value: T) {
    predicate IsFailure() {
      None?
    }

    function PropagateFailure<U>(): Option<U>
      requires None?
    {
      None
    }

    function Extract(): T
      requires Some?
    {
      value
    }
  }

  type Byte = x: int | 0 <= x < 256

  type Digest = d: seq<Byte> | |d| == 32 witness seq(32, _ => 0)

  type Hash = seq<Byte> -> Digest

  /** Two byte strings fed to the hash one after the other. */
  function Pair(left: seq<Byte>, right: seq<Byte>): seq<Byte> {
    left + right
  }

  function HashPair(sha: Hash, left: seq<Byte>, right: seq<Byte>): Digest {
    sha(Pair(left, right))
  }

  /** No two of the given byte strings collide. */
  ghost predicate InjectiveOn(sha: Hash, inputs: set<seq<Byte>>) {
    forall x, y :: x in inputs && y in inputs && sha(x) == sha(y) ==> x == y
  }

  /** Two of the given byte strings are different and have the same digest. */
  ghost predicate Collision(sha: Hash, inputs: set<seq<Byte>>) {
    exists x, y :: x in inputs && y in inputs && x != y && sha(x) == sha(y)
  }

  lemma InjectiveUnlessCollision(sha: Hash, inputs: set<seq<Byte>>)
    ensures InjectiveOn(sha, inputs) <==> !Collision(sha, inputs)
  {
  }

  /** Two digests hashed together can be told apart: each has 32 bytes. */
  lemma PairSplits(a: Digest, b: Digest, c: Digest, d: Digest)
    requires Pair(a, b) == Pair(c, d)
    ensures a == c && b == d
  {
    var x, y := Pair(a, b), Pair(c, d);
    assert a == x[..32] && c == y[..32];
    assert b == x[32..] && d == y[32..];
  }

  // ---------------------------------------------------------------- UTF-8

  /** The bytes of one character. */
  function Utf8Char(c: char): (bs: seq<Byte>)
    ensures bs != []
  {
    var n := c as int;
    if n < 0x80 then [n]
    else if n < 0x800 then [0xC0 + n / 64, 0x80 + n % 64]
    else if n < 0x1_0000 then [0xE0 + n / 4096, 0x80 + n / 64 % 64, 0x80 + n % 64]
    else [0xF0 + n / 262144, 0x80 + n / 4096 % 64, 0x80 + n / 64 % 64, 0x80 + n % 64]
  }

  /** Rust's `as_bytes`. */
  function Utf8(s: string): seq<Byte> {
    if s == "" then [] else Utf8Char(s[0]) + Utf8(s[1..])
  }

  /**
   The shortest form of section 3 of RFC 3629: one to four bytes by the size of the code point,
   a lead byte that tells how many, and continuation bytes from 0x80 to 0xBF.
   */
  lemma Utf8Form(c: char)
    ensures var n, bs := c as int, Utf8Char(c);
      && |bs| == (if n < 0x80 then 1 else if n < 0x800 then 2 else if n < 0x1_0000 then 3 else 4)
      && (|bs| == 1 ==> bs[0] == n)
      && (|bs| == 2 ==> 0xC0 <= bs[0] < 0xE0)
      && (|bs| == 3 ==> 0xE0 <= bs[0] < 0xF0)
      && (|bs| == 4 ==> 0xF0 <= bs[0] < 0xF8)
      && forall k :: 0 < k < |bs| ==> 0x80 <= bs[k] < 0xC0
  {
  }

  /** Reads one character's code point back. */
  function CodePoint(bs: seq<int>): int
    requires 1 <= |bs| <= 4
  {
    match |bs|
    case 1 => bs[0]
    case 2 => (bs[0] - 0xC0) * 64 + (bs[1] - 0x80)
    case 3 => (bs[0] - 0xE0) * 4096 + (bs[1] - 0x80) * 64 + (bs[2] - 0x80)
    case _ => (bs[0] - 0xF0) * 262144 + (bs[1] - 0x80) * 4096 + (bs[2] - 0x80) * 64 + (bs[3] - 0x80)
  }

  lemma CodePointOfChar(c: char)
    ensures 1 <= |Utf8Char(c)| <= 4 && CodePoint(Utf8Char(c)) == c as int
  {
    var n := c as int;
    assert n / 64 == n / 4096 * 64 + n / 64 % 64;
    assert n / 4096 == n / 262144 * 64 + n / 4096 % 64;
  }

  /** The first byte of a character tells how many bytes it has. */
  function LeadLength(b: Byte): nat {
    if b < 0x80 then 1 else if b < 0xE0 then 2 else if b < 0xF0 then 3 else 4
  }

  lemma LengthFromLead(c: char)
    ensures |Utf8Char(c)| == LeadLength(Utf8Char(c)[0])
  {
  }

  /** So characters can be read off the front of a text one by one. */
  lemma Utf8CharReadable(c: char, d: char, x: seq<Byte>, y: seq<Byte>)
    requires Utf8Char(c) + x == Utf8Char(d) + y
    ensures c == d && x == y
  {
    var u, v := Utf8Char(c), Utf8Char(d);
    assert (u + x)[0] == u[0] && (v + y)[0] == v[0];
    LengthFromLead(c);
    LengthFromLead(d);
    assert u == (u + x)[..|u|] == (v + y)[..|v|] == v;
    assert x == (u + x)[|u|..] == (v + y)[|v|..] == y;
    CodePointOfChar(c);
    CodePointOfChar(d);
  }

  lemma {:induction false} Utf8Injective(s: string, t: string)
    requires Utf8(s) == Utf8(t)
    ensures s == t
  {
    if s != "" && t != "" {
      Utf8CharReadable(s[0], t[0], Utf8(s[1..]), Utf8(t[1..]));
      Utf8Injective(s[1..], t[1..]);
      assert s == [s[0]] + s[1..] && t == [t[0]] + t[1..];
    }
  }

  /** ASCII text is its own bytes. */
  lemma {:induction false} AsciiBytes(s: string)
    requires forall i :: 0 <= i < |s| ==> s[i] < 128 as char
    ensures |Utf8(s)| == |s| && forall i :: 0 <= i < |s| ==> Utf8(s)[i] == s[i] as int
  {
    if s != "" {
      AsciiBytes(s[1..]);
      assert Utf8Char(s[0]) == [s[0] as int];
    }
  }

  // ---------------------------------------------------------------- hexadecimal

  function HexDigit(n: nat): char
    requires n < 16
  {
    if n < 10 then '0' + n as char else 'a' + (n - 10) as char
  }

  function HexEncode(bs: seq<Byte>): string {
    if bs == [] then "" else [HexDigit(bs[0] / 16), HexDigit(bs[0] % 16)] + HexEncode(bs[1..])
  }

  function HexValue(c: char): (v: Option<nat>)
    ensures v.Some? ==> v.value < 16
  {
    if '0' <= c <= '9' then Some(c as nat - '0' as nat)
    else if 'a' <= c <= 'f' then Some(c as nat - 'a' as nat + 10)
    else if 'A' <= c <= 'F' then Some(c as nat - 'A' as nat + 10)
    else None
  }

  /** `hex::decode`: either case, even length, nothing else. */
  function HexDecode(s: string): Option<seq<Byte>> {
    if s == "" then Some([])
    else if |s| == 1 then None
    else
      match (HexValue(s[0]), HexValue(s[1]), HexDecode(s[2..]))
      case (Some(hi), Some(lo), Some(rest)) => Some([16 * hi + lo] + rest)
      case _ => None
  }

  /** `trim_start_matches("0x")`: every leading "0x" goes, not only the first. */
  function Trim0x(s: string): string {
    if |s| >= 2 && s[0] == '0' && s[1] == 'x' then Trim0x(s[2..]) else s
  }

  /** How digests are printed: `format!("0x{}", hex::encode(..))`. */
  function Print0x(bs: seq<Byte>): string {
    "0x" + HexEncode(bs)
  }

  /** The alphabet of section 8 of RFC 4648, in lower case. */
  const HEX_ALPHABET: string := "0123456789abcdef"

  lemma HexDigitListed(n: nat)
    requires n < 16
    ensures |HEX_ALPHABET| == 16 && HexDigit(n) == HEX_ALPHABET[n]
  {
  }

  /** Every byte is printed as its high and its low digit, in lower case. */
  lemma {:induction false} HexText(bs: seq<Byte>)
    ensures |HEX_ALPHABET| == 16 && |HexEncode(bs)| == 2 * |bs|
    ensures forall i :: 0 <= i < |bs| ==>
      HexEncode(bs)[2 * i] == HEX_ALPHABET[bs[i] / 16] && HexEncode(bs)[2 * i + 1] == HEX_ALPHABET[bs[i] % 16]
  {
    HexDigitListed(0);
    hide HexDigit;
    if bs != [] {
      HexText(bs[1..]);
      var t, rest := HexEncode(bs), HexEncode(bs[1..]);
      HexDigitListed(bs[0] / 16);
      HexDigitListed(bs[0] % 16);
      forall i | 0 <= i < |bs|
        ensures t[2 * i] == HEX_ALPHABET[bs[i] / 16] && t[2 * i + 1] == HEX_ALPHABET[bs[i] % 16]
      {
        if i > 0 {
          assert t[2 * i] == rest[2 * (i - 1)] && t[2 * i + 1] == rest[2 * (i - 1) + 1];
          assert bs[1..][i - 1] == bs[i];
        }
      }
    }
  }

  /** A printed digest: "0x" and 64 characters of that alphabet. */
  predicate IsDigestText(t: string) {
    |t| == 66 && t[0] == '0' && t[1] == 'x' && forall i :: 2 <= i < 66 ==> t[i] in HEX_ALPHABET
  }

  lemma PrintedDigest(d: Digest)
    ensures IsDigestText(Print0x(d)) && |HEX_ALPHABET| == 16
    ensures forall i :: 0 <= i < 32 ==>
      Print0x(d)[2 + 2 * i] == HEX_ALPHABET[d[i] / 16] && Print0x(d)[3 + 2 * i] == HEX_ALPHABET[d[i] % 16]
  {
    HexText(d);
    var t, h := Print0x(d), HexEncode(d);
    hide HexEncode, HEX_ALPHABET;
    forall i | 0 <= i < 32
      ensures t[2 + 2 * i] == HEX_ALPHABET[d[i] / 16] && t[3 + 2 * i] == HEX_ALPHABET[d[i] % 16]
    {
      assert t[2 + 2 * i] == h[2 * i] && t[3 + 2 * i] == h[2 * i + 1];
    }
    forall i | 2 <= i < 66
      ensures t[i] in HEX_ALPHABET
    {
      var k := (i - 2) / 2;
      if i == 2 + 2 * k {
        assert t[2 + 2 * k] == HEX_ALPHABET[d[k] / 16];
      } else {
        assert t[3 + 2 * k] == HEX_ALPHABET[d[k] % 16];
      }
    }
  }

  /** Digits of either case have their values. */
  lemma HexValueListed(n: nat)
    requires n < 16
    ensures HexValue("0123456789abcdef"[n]) == Some(n) && HexValue("0123456789ABCDEF"[n]) == Some(n)
  {
  }

  /** Nothing else has one. */
  lemma HexValueOnly(c: char)
    ensures HexValue(c).Some? ==>
      (c == "0123456789abcdef"[HexValue(c).value] || c == "0123456789ABCDEF"[HexValue(c).value])
  {
  }

  /** Decoding works exactly for an even number of digits, two to a byte. */
  lemma {:induction false} HexDecodeExact(s: string)
    ensures HexDecode(s).Some? <==> |s| % 2 == 0 && forall i :: 0 <= i < |s| ==> HexValue(s[i]).Some?
    ensures HexDecode(s).Some? ==> |s| == 2 * |HexDecode(s).value| && forall i :: 0 <= i < |HexDecode(s).value| ==>
      HexDecode(s).value[i] == 16 * HexValue(s[2 * i]).value + HexValue(s[2 * i + 1]).value
  {
    hide HexValue;
    if |s| > 1 {
      var rest := s[2..];
      HexDecodeExact(rest);
      assert forall i :: 2 <= i < |s| ==> s[i] == rest[i - 2];
      if HexDecode(s).Some? {
        var bs, tail := HexDecode(s).value, HexDecode(rest).value;
        forall i | 0 <= i < |bs|
          ensures bs[i] == 16 * HexValue(s[2 * i]).value + HexValue(s[2 * i + 1]).value
        {
          if i > 0 {
            assert bs[i] == tail[i - 1] && s[2 * i] == rest[2 * (i - 1)] && s[2 * i + 1] == rest[2 * (i - 1) + 1];
          }
        }
      }
    }
  }

  /** "0x" k times. */
  function Prefixes(k: nat): string {
    if k == 0 then "" else "0x" + Prefixes(k - 1)
  }

  /** Every leading "0x" goes, and no more. */
  lemma {:induction false} Trim0xExact(s: string) returns (k: nat)
    ensures s == Prefixes(k) + Trim0x(s) && !("0x" <= Trim0x(s))
  {
    if |s| >= 2 && s[0] == '0' && s[1] == 'x' {
      var j := Trim0xExact(s[2..]);
      k := j + 1;
      assert s == "0x" + s[2..];
    } else {
      k := 0;
    }
  }

  lemma HexDigitReadsBack(n: nat)
    requires n < 16
    ensures HexValue(HexDigit(n)) == Some(n) && HexDigit(n) != 'x'
  {
  }

  lemma HexDecodeCons(hi: nat, lo: nat, text: string, bs: seq<Byte>)
    requires hi < 16 && lo < 16 && HexDecode(text) == Some(bs)
    ensures HexDecode([HexDigit(hi), HexDigit(lo)] + text) == Some([16 * hi + lo] + bs)
  {
    HexDigitReadsBack(hi);
    HexDigitReadsBack(lo);
    hide HexDigit, HexValue;
    var s := [HexDigit(hi), HexDigit(lo)] + text;
    assert s[2..] == text;
  }

  lemma {:induction false} HexRoundTrip(bs: seq<Byte>)
    ensures HexDecode(HexEncode(bs)) == Some(bs)
    ensures |bs| > 0 ==> |HexEncode(bs)| >= 2 && HexEncode(bs)[1] != 'x'
  {
    hide HexDigit, HexDecode;
    if bs == [] {
      HexDecodeEmpty();
    } else {
      HexRoundTrip(bs[1..]);
      HexDigitReadsBack(bs[0] % 16);
      HexDecodeCons(bs[0] / 16, bs[0] % 16, HexEncode(bs[1..]), bs[1..]);
      assert bs == [16 * (bs[0] / 16) + bs[0] % 16] + bs[1..];
    }
  }

  lemma HexDecodeEmpty()
    ensures HexDecode("") == Some([])
  {
  }

  /** Printing a digest and reading it back, through the prefix stripping, is the identity. */
  lemma PrintedDigestReadsBack(bs: seq<Byte>)
    ensures HexDecode(Trim0x(Print0x(bs))) == Some(bs)
  {
    HexRoundTrip(bs);
    assert Print0x(bs)[2..] == HexEncode(bs);
    assert Trim0x(Print0x(bs)) == Trim0x(HexEncode(bs)) == HexEncode(bs);
  }

  lemma PrintInjective(a: seq<Byte>, b: seq<Byte>)
    requires Print0x(a) == Print0x(b)
    ensures a == b
  {
    PrintedDigestReadsBack(a);
    PrintedDigestReadsBack(b);
  }
}
