/**
 Texts made of labelled fields, as signed by the ERP and Kwil code: each label ends in `=`,
 and values never hold a bare `=`, so every label can be found again from the left.
 */
module SignedText {
  import opened Bytes

  /** Every `=` in the text directly follows a backslash. */
  predicate NoBareEquals(v: string) {
    forall i :: 0 <= i < |v| && v[i] == '=' ==> i > 0 && v[i - 1] == '\\'
  }

  /** Labels and values in turn. */
  function Render(labels: seq<string>, values: seq<string>): string
    requires |labels| == |values|
  {
    if labels == [] then "" else labels[0] + values[0] + Render(labels[1..], values[1..])
  }

  // ---------------------------------------------------------------- reading fields back

  predicate Occurs(text: string, word: string, i: nat) {
    i <= |text| && word <= text[i..]
  }

  /** The first place where a word stands in a text. */
  function Find(text: string, word: string): (r: Option<nat>)
    ensures r.Some? ==> r.value + |word| <= |text|
  {
    if word <= text then Some(0)
    else if text == "" then None
    else
      match Find(text[1..], word)
      case None => None
      case Some(i) => Some(i + 1)
  }

  /** The text before a word, or all of it. */
  function UpTo(text: string, word: string): string {
    match Find(text, word)
    case None => text
    case Some(i) => text[..i]
  }

  function LabelOf(name: string): (l: string)
    ensures |l| == |name| + 2
  {
    "|" + name + "="
  }

  /** What follows the label of a field. */
  function FieldFrom(text: string, name: string): Option<string> {
    match Find(text, LabelOf(name))
    case None => None
    case Some(i) => Some(text[i + |LabelOf(name)|..])
  }

  predicate IsName(name: string) {
    name != "" && forall i :: 0 <= i < |name| ==> name[i] != '|' && name[i] != '=' && name[i] != '\\'
  }

  function LabelsOf(names: seq<string>): (ls: seq<string>)
    ensures |ls| == |names| && forall i :: 0 <= i < |ls| ==> ls[i] == LabelOf(names[i])
  {
    seq(|names|, i requires 0 <= i < |names| => LabelOf(names[i]))
  }

  lemma {:induction false} FindLater(text: string, word: string, n: nat)
    requires n <= |text| && forall i :: 0 <= i < n ==> !Occurs(text, word, i)
    ensures Find(text, word) == match Find(text[n..], word) case None => None case Some(i) => Some(n + i)
    decreases n
  {
    if n == 0 {
      assert text[0..] == text;
    } else {
      var rest := text[1..];
      assert !(word <= text) by {
        assert !Occurs(text, word, 0) && text[0..] == text;
      }
      assert Find(text, word) == match Find(rest, word) case None => None case Some(i) => Some(i + 1);
      hide Find;
      forall i | 0 <= i < n - 1
        ensures !Occurs(rest, word, i)
      {
        assert !Occurs(text, word, i + 1) && rest[i..] == text[i + 1..];
      }
      FindLater(rest, word, n - 1);
      assert rest[n - 1..] == text[n..];
    }
  }

  lemma OccursAt(text: string, word: string, i: nat, q: nat)
    requires Occurs(text, word, i) && q < |word|
    ensures i + q < |text| && text[i + q] == word[q]
  {
    assert text[i..][q] == text[i + q];
  }

  /** A label's only bar is its first character, its only equals sign the last. */
  lemma LabelChars(name: string, q: nat)
    requires IsName(name) && q < |LabelOf(name)|
    ensures LabelOf(name)[q] == '|' <==> q == 0
    ensures LabelOf(name)[q] == '=' <==> q == |name| + 1
    ensures LabelOf(name)[|name|] != '\\'
  {
    if 0 < q <= |name| {
      assert LabelOf(name)[q] == name[q - 1];
    }
    assert LabelOf(name)[|name|] == name[|name| - 1];
  }

  /** A label does not begin inside a value. */
  lemma NotInValue(name: string, v: string, rest: string, i: nat)
    requires IsName(name) && NoBareEquals(v) && i < |v| && (rest == "" || rest[0] == '|')
    ensures !Occurs(v + rest, LabelOf(name), i)
  {
    var text, e := v + rest, i + |name| + 1;
    hide LabelOf, Occurs, IsName;
    if Occurs(text, LabelOf(name), i) {
      OccursAt(text, LabelOf(name), i, |name| + 1);
      LabelChars(name, |name| + 1);
      if e < |v| {
        OccursAt(text, LabelOf(name), i, |name|);
      } else {
        OccursAt(text, LabelOf(name), i, |v| - i);
        LabelChars(name, |v| - i);
      }
    }
  }

  /** Nor inside another label. */
  lemma NotInLabel(name: string, other: string, rest: string, i: nat)
    requires IsName(name) && IsName(other) && name != other && i < |LabelOf(other)|
    ensures !Occurs(LabelOf(other) + rest, LabelOf(name), i)
  {
    var l, text := LabelOf(other), LabelOf(other) + rest;
    if Occurs(text, LabelOf(name), i) {
      OccursAt(text, LabelOf(name), i, 0);
      LabelChars(name, 0);
      LabelChars(other, i);
      SameLabel(name, other, rest);
    }
  }

  lemma SameLabel(name: string, other: string, rest: string)
    requires IsName(name) && IsName(other) && Occurs(LabelOf(other) + rest, LabelOf(name), 0)
    ensures name == other
  {
    var l, text := LabelOf(other), LabelOf(other) + rest;
    assert text[0..] == text;
    if |name| <= |other| {
      OccursAt(text, LabelOf(name), 0, |name| + 1);
      LabelChars(name, |name| + 1);
      LabelChars(other, |name| + 1);
    } else {
      OccursAt(text, LabelOf(name), 0, |other| + 1);
      LabelChars(name, |other| + 1);
      LabelChars(other, |other| + 1);
    }
    assert LabelOf(name) == text[..|l|] == l;
    assert name == LabelOf(name)[1..|name| + 1] && other == l[1..|other| + 1];
  }

  /** Where the k-th label begins. */
  function Offset(names: seq<string>, values: seq<string>, k: nat): nat
    requires |names| == |values| && k < |names|
  {
    if k == 0 then 0 else |LabelOf(names[0])| + |values[0]| + Offset(names[1..], values[1..], k - 1)
  }

  predicate Distinct(names: seq<string>) {
    forall i, j :: 0 <= i < j < |names| ==> names[i] != names[j]
  }

  lemma RenderCons(names: seq<string>, values: seq<string>)
    requires |names| == |values| > 0
    ensures Render(LabelsOf(names), values)
      == LabelOf(names[0]) + values[0] + Render(LabelsOf(names[1..]), values[1..])
  {
    assert LabelsOf(names)[1..] == LabelsOf(names[1..]);
  }

  lemma RenderStarts(names: seq<string>, values: seq<string>)
    requires |names| == |values|
    ensures var t := Render(LabelsOf(names), values); t == "" || t[0] == '|'
  {
    if names != [] {
      RenderCons(names, values);
    }
  }

  lemma NotBefore(name: string, other: string, v: string, rest: string, i: nat)
    requires IsName(name) && IsName(other) && name != other && NoBareEquals(v)
    requires (rest == "" || rest[0] == '|') && i < |LabelOf(other)| + |v|
    ensures !Occurs(LabelOf(other) + v + rest, LabelOf(name), i)
  {
    hide IsName, NoBareEquals, LabelOf;
    var l, text := LabelOf(other), LabelOf(other) + v + rest;
    if i < |l| {
      assert text == l + (v + rest);
      NotInLabel(name, other, v + rest, i);
    } else {
      assert text[i..] == (v + rest)[i - |l|..];
      NotInValue(name, v, rest, i - |l|);
    }
  }

  /** A field is found behind another one. */
  lemma FieldBehindField(name: string, other: string, v: string, rest: string)
    requires IsName(name) && IsName(other) && name != other && NoBareEquals(v)
    requires rest == "" || rest[0] == '|'
    ensures FieldFrom(LabelOf(other) + v + rest, name) == FieldFrom(rest, name)
    ensures Find(rest, LabelOf(name)).Some? ==>
      Find(LabelOf(other) + v + rest, LabelOf(name)) == Some(|other| + 2 + |v| + Find(rest, LabelOf(name)).value)
  {
    hide IsName, NoBareEquals, LabelOf, Occurs, Find, FieldFrom;
    var front := LabelOf(other) + v;
    forall i | 0 <= i < |front|
      ensures !Occurs(front + rest, LabelOf(name), i)
    {
      NotBefore(name, other, v, rest, i);
    }
    Behind(front, rest, name);
  }

  lemma SliceBehind(front: string, rest: string, j: nat)
    requires j <= |rest|
    ensures (front + rest)[|front| + j..] == rest[j..]
  {
  }

  lemma FindBehind(front: string, rest: string, word: string)
    requires forall i :: 0 <= i < |front| ==> !Occurs(front + rest, word, i)
    ensures Find(front + rest, word) == match Find(rest, word) case None => None case Some(i) => Some(|front| + i)
  {
    hide Find, Occurs;
    var text := front + rest;
    assert text[|front|..] == rest;
    FindLater(text, word, |front|);
  }

  lemma Behind(front: string, rest: string, name: string)
    requires forall i :: 0 <= i < |front| ==> !Occurs(front + rest, LabelOf(name), i)
    ensures FieldFrom(front + rest, name) == FieldFrom(rest, name)
    ensures Find(rest, LabelOf(name)).Some? ==>
      Find(front + rest, LabelOf(name)) == Some(|front| + Find(rest, LabelOf(name)).value)
  {
    FindBehind(front, rest, LabelOf(name));
    hide Find, LabelOf, Occurs;
    if Find(rest, LabelOf(name)).Some? {
      var j := Find(rest, LabelOf(name)).value + |LabelOf(name)|;
      SliceBehind(front, rest, j);
      assert FieldFrom(rest, name) == Some(rest[j..]);
    }
  }

  /** The fields after the k-th. */
  function Later(names: seq<string>, values: seq<string>, k: nat): string
    requires |names| == |values| && k < |names|
  {
    if k == 0 then Render(LabelsOf(names[1..]), values[1..]) else Later(names[1..], values[1..], k - 1)
  }

  /** They begin with the next label. */
  lemma {:induction false} LaterStarts(names: seq<string>, values: seq<string>, k: nat)
    requires |names| == |values| && k < |names|
    ensures if k + 1 == |names| then Later(names, values, k) == "" else LabelOf(names[k + 1]) <= Later(names, values, k)
    decreases k
  {
    hide LabelOf;
    if k > 0 {
      LaterStarts(names[1..], values[1..], k - 1);
    } else if |names| > 1 {
      RenderCons(names[1..], values[1..]);
    }
  }

  ghost predicate Readable(names: seq<string>, values: seq<string>) {
    && |names| == |values| && Distinct(names)
    && forall i :: 0 <= i < |names| ==> IsName(names[i]) && NoBareEquals(values[i])
  }

  /** Every field is found at its place: what follows its label is its value and the later fields. */
  lemma {:induction false} FieldFound(names: seq<string>, values: seq<string>, k: nat)
    requires Readable(names, values) && k < |names|
    ensures var t := Render(LabelsOf(names), values);
      && Find(t, LabelOf(names[k])) == Some(Offset(names, values, k))
      && FieldFrom(t, names[k]) == Some(values[k] + Later(names, values, k))
    decreases k
  {
    RenderCons(names, values);
    RenderStarts(names[1..], values[1..]);
    FieldUnfolds(names, values, k);
    ReadableAt(names, values, k);
    hide Render, NoBareEquals, IsName, Find, LabelOf, LabelsOf, FieldFrom, Offset, Later, Readable;
    if k > 0 {
      FieldFound(names[1..], values[1..], k - 1);
    }
    var t, rest := Render(LabelsOf(names), values), Render(LabelsOf(names[1..]), values[1..]);
    FieldStep(names[k], names[0], values[0], rest, t);
  }

  lemma FieldStep(name: string, other: string, v: string, rest: string, t: string)
    requires IsName(name) && IsName(other) && NoBareEquals(v)
    requires t == LabelOf(other) + v + rest && (rest == "" || rest[0] == '|')
    ensures name == other ==> Find(t, LabelOf(name)) == Some(0) && FieldFrom(t, name) == Some(v + rest)
    ensures name != other ==> FieldFrom(t, name) == FieldFrom(rest, name)
    ensures name != other && Find(rest, LabelOf(name)).Some? ==>
      Find(t, LabelOf(name)) == Some(|other| + 2 + |v| + Find(rest, LabelOf(name)).value)
  {
    hide NoBareEquals, IsName, Find, LabelOf, FieldFrom;
    if name == other {
      FirstField(name, v, rest);
    } else {
      FieldBehindField(name, other, v, rest);
    }
  }

  lemma FieldUnfolds(names: seq<string>, values: seq<string>, k: nat)
    requires |names| == |values| && k < |names|
    ensures k == 0 ==>
      Offset(names, values, k) == 0 && Later(names, values, k) == Render(LabelsOf(names[1..]), values[1..])
    ensures k > 0 ==>
      && Offset(names, values, k) == |names[0]| + 2 + |values[0]| + Offset(names[1..], values[1..], k - 1)
      && Later(names, values, k) == Later(names[1..], values[1..], k - 1)
      && names[1..][k - 1] == names[k] && values[1..][k - 1] == values[k]
  {
    hide LabelOf, Render;
  }

  lemma ReadableAt(names: seq<string>, values: seq<string>, k: nat)
    requires Readable(names, values) && k < |names|
    ensures Readable(names[1..], values[1..])
    ensures IsName(names[0]) && IsName(names[k]) && NoBareEquals(values[0]) && (k > 0 ==> names[0] != names[k])
  {
    hide IsName, NoBareEquals;
  }

  lemma FirstField(name: string, v: string, rest: string)
    ensures Find(LabelOf(name) + v + rest, LabelOf(name)) == Some(0)
    ensures FieldFrom(LabelOf(name) + v + rest, name) == Some(v + rest)
  {
    var l, t := LabelOf(name), LabelOf(name) + v + rest;
    assert l <= t && t[|l|..] == v + rest;
  }

  /** A text before the fields that holds no bar does not matter. */
  lemma FieldBehindPrefix(prefix: string, text: string, name: string)
    requires '|' !in prefix
    ensures FieldFrom(prefix + text, name) == FieldFrom(text, name)
    ensures Find(text, LabelOf(name)).Some? ==>
      Find(prefix + text, LabelOf(name)) == Some(|prefix| + Find(text, LabelOf(name)).value)
  {
    forall i | 0 <= i < |prefix|
      ensures !Occurs(prefix + text, LabelOf(name), i)
    {
      assert (prefix + text)[i..][0] == prefix[i] && prefix[i] in prefix;
    }
    Behind(prefix, text, name);
  }

  /** A value ends at the next label. */
  lemma ValueEnds(name: string, v: string, rest: string)
    requires IsName(name) && NoBareEquals(v) && LabelOf(name) <= rest
    ensures UpTo(v + rest, LabelOf(name)) == v
  {
    var t := v + rest;
    assert rest[0] == '|';
    forall i | 0 <= i < |v|
      ensures !Occurs(t, LabelOf(name), i)
    {
      NotInValue(name, v, rest, i);
    }
    FindLater(t, LabelOf(name), |v|);
    assert t[|v|..] == rest;
  }

  /** A value without bars ends at the next bar. */
  lemma BarEnds(v: string, rest: string)
    requires '|' !in v && (rest == "" || rest[0] == '|')
    ensures UpTo(v + rest, "|") == v
  {
    if rest == "" {
      assert v + rest == v;
      CharMissing('|', v);
    } else {
      assert rest == "|" + rest[1..] && v + rest == v + "|" + rest[1..];
      CharFound('|', v, rest[1..]);
    }
  }

  lemma {:induction false} CharMissing(c: char, v: string)
    requires c !in v
    ensures Find(v, [c]) == None
  {
    if v != "" {
      assert v[0] in v;
      CharMissing(c, v[1..]);
    }
  }

  lemma CharFound(c: char, v: string, rest: string)
    requires c !in v
    ensures Find(v + [c] + rest, [c]) == Some(|v|)
  {
    var t := v + [c] + rest;
    forall i | 0 <= i < |v|
      ensures !Occurs(t, [c], i)
    {
      assert t[i..][0] == v[i] && v[i] in v;
    }
    FindLater(t, [c], |v|);
    assert t[|v|..] == [c] + rest;
  }

  /** The labels stand in the order of the names. */
  lemma {:induction false} OffsetsRise(names: seq<string>, values: seq<string>, k: nat)
    requires |names| == |values| && k + 1 < |names|
    ensures Offset(names, values, k) < Offset(names, values, k + 1)
    decreases k
  {
    if k > 0 {
      OffsetsRise(names[1..], values[1..], k - 1);
    }
  }

  /** Where a field's label stands; behind everything when it is missing. */
  function Place(text: string, name: string): nat {
    match Find(text, LabelOf(name))
    case None => |text|
    case Some(i) => i
  }

  /** The value of a field, up to the next bar. */
  function BarField(text: string, name: string): Option<string> {
    match FieldFrom(text, name)
    case None => None
    case Some(rest) => Some(UpTo(rest, "|"))
  }

  /** The value of a field, up to the label of the next field or, for the last, the end. */
  function NextField(text: string, name: string, next: string): Option<string> {
    match FieldFrom(text, name)
    case None => None
    case Some(rest) => Some(if next == "" then rest else UpTo(rest, LabelOf(next)))
  }

  /** Fields behind a prefix are read back by name, and stand in order. */
  lemma FieldRead(prefix: string, names: seq<string>, values: seq<string>, k: nat)
    requires Readable(names, values) && k < |names| && '|' !in prefix
    ensures var t := prefix + Render(LabelsOf(names), values);
      && ('|' !in values[k] ==> BarField(t, names[k]) == Some(values[k]))
      && NextField(t, names[k], if k + 1 < |names| then names[k + 1] else "") == Some(values[k])
      && Place(t, names[k]) == |prefix| + Offset(names, values, k)
  {
    var text := Render(LabelsOf(names), values);
    var v, rest := values[k], Later(names, values, k);
    FieldFound(names, values, k);
    FieldBehindPrefix(prefix, text, names[k]);
    LaterStarts(names, values, k);
    hide Render, Later, NoBareEquals, Find, FieldFrom, Offset, UpTo;
    assert IsName(names[k]) && NoBareEquals(v);
    if k + 1 == |names| {
      assert v + rest == v;
      if '|' !in v {
        BarEnds(v, rest);
      }
    } else {
      assert rest[0] == LabelOf(names[k + 1])[0];
      assert IsName(names[k + 1]);
      ValueEnds(names[k + 1], v, rest);
      if '|' !in v {
        BarEnds(v, rest);
      }
    }
  }

  /** The text before the first bar. */
  lemma PrefixRead(prefix: string, names: seq<string>, values: seq<string>)
    requires |names| == |values| && '|' !in prefix
    ensures UpTo(prefix + Render(LabelsOf(names), values), "|") == prefix
  {
    RenderStarts(names, values);
    BarEnds(prefix, Render(LabelsOf(names), values));
  }

  /** With given prefix and names the text determines the values. */
  lemma TextInjective(prefix: string, names: seq<string>, values: seq<string>, values': seq<string>)
    requires Readable(names, values) && Readable(names, values') && '|' !in prefix
    requires prefix + Render(LabelsOf(names), values) == prefix + Render(LabelsOf(names), values')
    ensures values == values'
  {
    hide Render, NoBareEquals, IsName, NextField;
    forall k | 0 <= k < |names|
      ensures values[k] == values'[k]
    {
      FieldRead(prefix, names, values, k);
      FieldRead(prefix, names, values', k);
    }
  }

  /** A separator that neither front part holds marks one split point. */
  lemma SeparatorSplits(c: char, a: string, x: string, b: string, y: string)
    requires c !in a && c !in b && a + [c] + x == b + [c] + y
    ensures a == b && x == y
  {
    var s, t := a + [c] + x, b + [c] + y;
    assert s[|a|] == c && t[|b|] == c;
    assert |a| == |b|;
    assert a == s[..|a|] == b && x == s[|a| + 1..] == y;
  }

  // ---------------------------------------------------------------- decimal numbers

  /** Decimal digits of a natural number. */
  function Digits(n: nat): (s: string)
    ensures |s| > 0
    ensures forall i :: 0 <= i < |s| ==> '0' <= s[i] <= '9'
  {
    if n < 10 then ['0' + n as char] else Digits(n / 10) + ['0' + (n % 10) as char]
  }

  /** Signed decimal, as `{}` prints an integer. */
  function Decimal(n: int): (s: string)
    ensures |s| > 0
    ensures forall i :: 0 <= i < |s| ==> '0' <= s[i] <= '9' || s[i] == '-'
  {
    if n < 0 then "-" + Digits(-n) else Digits(n)
  }

  /** Reads digits back. */
  function DigitsValue(s: string): int {
    if s == "" then 0 else 10 * DigitsValue(s[..|s| - 1]) + (s[|s| - 1] as int - '0' as int)
  }

  lemma {:induction false} DigitsReadBack(n: nat)
    ensures DigitsValue(Digits(n)) == n
  {
    if n < 10 {
      var s := Digits(n);
      assert s[..0] == "" && s[0] as int - '0' as int == n;
      assert DigitsValue(s) == 10 * DigitsValue(s[..0]) + n;
    } else {
      DigitsReadBack(n / 10);
      var s := Digits(n);
      assert s[..|s| - 1] == Digits(n / 10);
      assert s[|s| - 1] as int - '0' as int == n % 10;
    }
  }

  /** No leading zeros, and a minus sign exactly before the digits of a negative number. */
  lemma {:induction false} DigitsForm(n: nat)
    ensures Digits(n)[0] == '0' ==> n == 0 && Digits(n) == "0"
  {
    if n >= 10 {
      DigitsForm(n / 10);
      assert Digits(n)[0] == Digits(n / 10)[0];
    }
  }

  /** Reads a printed integer. */
  function DecimalValue(s: string): int {
    if s != "" && s[0] == '-' then -DigitsValue(s[1..]) else DigitsValue(s)
  }

  lemma DecimalReadsBack(n: int)
    ensures DecimalValue(Decimal(n)) == n
    ensures n < 0 <==> Decimal(n)[0] == '-'
    ensures (if n < 0 then Decimal(n)[1] else Decimal(n)[0]) == '0' ==> n == 0
  {
    var m := if n < 0 then -n else n;
    DigitsReadBack(m);
    DigitsForm(m);
    hide DigitsValue;
    if n < 0 {
      assert Decimal(n)[1..] == Digits(m);
    }
  }

  lemma DecimalInjective(m: int, n: int)
    requires Decimal(m) == Decimal(n)
    ensures m == n
  {
    var s, t := Decimal(m), Decimal(n);
    assert s[0] == t[0];
    DigitsReadBack(if m < 0 then -m else m);
    DigitsReadBack(if n < 0 then -n else n);
    hide Digits, DigitsValue;
    if m < 0 {
      assert s[1..] == Digits(-m) && t[1..] == Digits(-n);
    }
  }
}
