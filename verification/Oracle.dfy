/**
 Exchange-rate aggregation: weighted mean, rejection of sources 10% or more away from it,
 mean of the rest and a confidence from their spread. Over the reals; the square root is a
 parameter with its defining property.
 */
module Oracle {
  import opened Bytes

  datatype Quote = Quote(rate: real, weight: real)

  predicate Weighed(qs: seq<Quote>) {
    forall i :: 0 <= i < |qs| ==> qs[i].weight > 0.0
  }

  ghost predicate IsSqrt(sqrt: real -> real) {
    forall x: real :: x >= 0.0 ==> sqrt(x) >= 0.0 && Square(sqrt(x)) == x
  }

  function Weighted(q: Quote): real {
    q.rate * q.weight
  }

  function Squared(q: Quote): real {
    q.weight * (q.rate * q.rate)
  }

  function Deviation(q: Quote, c: real): real {
    q.weight * ((q.rate - c) * (q.rate - c))
  }

  function TotalWeight(qs: seq<Quote>): real {
    if qs == [] then 0.0 else TotalWeight(qs[..|qs| - 1]) + qs[|qs| - 1].weight
  }

  function WeightedSum(qs: seq<Quote>): real {
    if qs == [] then 0.0 else WeightedSum(qs[..|qs| - 1]) + Weighted(qs[|qs| - 1])
  }

  function SquareSum(qs: seq<Quote>): real {
    if qs == [] then 0.0 else SquareSum(qs[..|qs| - 1]) + Squared(qs[|qs| - 1])
  }

  /** Weighted squared distances from c. */
  function Spread(qs: seq<Quote>, c: real): real {
    if qs == [] then 0.0 else Spread(qs[..|qs| - 1], c) + Deviation(qs[|qs| - 1], c)
  }

  lemma {:induction false} WeightPositive(qs: seq<Quote>)
    requires Weighed(qs)
    ensures TotalWeight(qs) >= 0.0 && (qs != [] ==> TotalWeight(qs) > 0.0)
  {
    if qs != [] {
      WeightPositive(qs[..|qs| - 1]);
    }
  }

  function Mean(qs: seq<Quote>): real
    requires Weighed(qs) && qs != []
  {
    WeightPositive(qs);
    WeightedSum(qs) / TotalWeight(qs)
  }

  function Variance(qs: seq<Quote>, c: real): real
    requires Weighed(qs) && qs != []
  {
    WeightPositive(qs);
    Spread(qs, c) / TotalWeight(qs)
  }

  function Square(x: real): real {
    x * x
  }

  function Abs(x: real): real {
    if x < 0.0 then -x else x
  }

  /** Relative distance below 10%; with a zero mean the quotient is no number and the test fails. */
  predicate Close(rate: real, mean: real) {
    mean != 0.0 && Abs(rate - mean) / mean < 0.1
  }

  function Retained(qs: seq<Quote>, mean: real): seq<Quote> {
    if qs == [] then []
    else
      var q := qs[|qs| - 1];
      Retained(qs[..|qs| - 1], mean) + if Close(q.rate, mean) then [q] else []
  }

  lemma {:induction false} RetainedIsClose(qs: seq<Quote>, mean: real)
    ensures forall q :: q in Retained(qs, mean) <==> q in qs && Close(q.rate, mean)
    ensures Weighed(qs) ==> Weighed(Retained(qs, mean))
  {
    hide Close;
    if qs != [] {
      var front, last := qs[..|qs| - 1], qs[|qs| - 1];
      RetainedIsClose(front, mean);
      assert qs == front + [last];
    }
  }

  /** Rate and confidence reported for the retained quotes. */
  function Confidence(kept: seq<Quote>, sqrt: real -> real): real
    requires Weighed(kept) && kept != [] && Mean(kept) != 0.0
  {
    if |kept| > 1 then
      var relative := sqrt(Variance(kept, Mean(kept))) / Mean(kept);
      1.0 - (if relative < 1.0 then relative else 1.0)
    else 0.5
  }

  // ---------------------------------------------------------------- one currency

  method Sums(qs: seq<Quote>) returns (weight: real, sum: real)
    ensures weight == TotalWeight(qs) && sum == WeightedSum(qs)
  {
    weight, sum := 0.0, 0.0;
    for i := 0 to |qs|
      invariant weight == TotalWeight(qs[..i]) && sum == WeightedSum(qs[..i])
    {
      assert qs[..i + 1][..i] == qs[..i];
      weight := weight + qs[i].weight;
      sum := sum + qs[i].rate * qs[i].weight;
    }
    assert qs[..|qs|] == qs;
  }

  /** The aggregate of one currency, or none when no source is close enough. */
  method AggregateKey(values: seq<Quote>, sqrt: real -> real) returns (r: Option<(real, real)>)
    requires Weighed(values)
    ensures r == Aggregate(values, sqrt)
  {
    if values == [] {
      return None;
    }
    hide Close, Spread, Retained, TotalWeight, WeightedSum;
    var totalWeight, weightedTotal := Sums(values);
    WeightPositive(values);
    var weightedMean := weightedTotal / totalWeight;
    var kept := RetainClose(values, weightedMean);
    if kept == [] {
      return None;
    }
    RetainedIsClose(values, weightedMean);
    FinalMeanNotZero(values);
    var finalWeight, finalTotal := Sums(kept);
    WeightPositive(kept);
    var finalMean := finalTotal / finalWeight;
    if |kept| > 1 {
      var spread := SpreadAround(kept, finalMean);
      var relative := sqrt(spread / finalWeight) / finalMean;
      return Some((finalMean, 1.0 - (if relative < 1.0 then relative else 1.0)));
    }
    return Some((finalMean, 0.5));
  }

  // ---------------------------------------------------------------- all currencies

  datatype Currency = Currency(code: string)

  /** One provider's answer: its rates by currency, and the provider's weight. */
  datatype Source = Source(rates: map<Currency, real>, weight: real)

  /** The quotes for one currency, in provider order. */
  function QuotesFor(sources: seq<Source>, key: Currency): seq<Quote> {
    if sources == [] then []
    else
      var last := sources[|sources| - 1];
      QuotesFor(sources[..|sources| - 1], key) +
      if key in last.rates then [Quote(last.rates[key], last.weight)] else []
  }

  lemma {:induction false} QuotesWeighed(sources: seq<Source>, key: Currency)
    requires WeightsPositive(sources)
    ensures Weighed(QuotesFor(sources, key))
  {
    if sources != [] {
      QuotesWeighed(sources[..|sources| - 1], key);
    }
  }

  method QuotesOf(sources: seq<Source>, key: Currency) returns (values: seq<Quote>)
    ensures values == QuotesFor(sources, key)
  {
    values := [];
    for i := 0 to |sources|
      invariant values == QuotesFor(sources[..i], key)
    {
      assert sources[..i + 1][..i] == sources[..i];
      if key in sources[i].rates {
        values := values + [Quote(sources[i].rates[key], sources[i].weight)];
      }
    }
    assert sources[..|sources|] == sources;
  }

  /** What one currency gets: none without a quote close enough to the first mean. */
  function Aggregate(values: seq<Quote>, sqrt: real -> real): Option<(real, real)>
    requires Weighed(values)
  {
    if values == [] || Retained(values, Mean(values)) == [] then None
    else
      FinalMeanNotZero(values);
      var kept := Retained(values, Mean(values));
      Some((Mean(kept), Confidence(kept, sqrt)))
  }

  /** `retain` in place, on values. */
  method RetainClose(qs: seq<Quote>, mean: real) returns (kept: seq<Quote>)
    ensures kept == Retained(qs, mean)
  {
    hide Close;
    kept := [];
    for i := 0 to |qs|
      invariant kept == Retained(qs[..i], mean)
    {
      assert qs[..i + 1][..i] == qs[..i];
      if Close(qs[i].rate, mean) {
        kept := kept + [qs[i]];
      }
    }
    assert qs[..|qs|] == qs;
  }

  /** The currencies some provider quotes. */
  method KeysOf(sources: seq<Source>) returns (keys: set<Currency>)
    ensures forall key :: key in keys <==> exists i :: 0 <= i < |sources| && key in sources[i].rates
  {
    keys := {};
    for i := 0 to |sources|
      invariant forall key :: key in keys <==> exists j :: 0 <= j < i && key in sources[j].rates
    {
      keys := keys + sources[i].rates.Keys;
    }
  }

  predicate WeightsPositive(sources: seq<Source>) {
    forall i :: 0 <= i < |sources| ==> sources[i].weight > 0.0
  }

  /** What one currency gets out of all the providers' answers. */
  function Answer(sources: seq<Source>, key: Currency, sqrt: real -> real): Option<(real, real)>
    requires WeightsPositive(sources)
  {
    QuotesWeighed(sources, key);
    Aggregate(QuotesFor(sources, key), sqrt)
  }

  /**
   All currencies, visited in any order: a currency is reported exactly when one of its quotes
   is close to their mean, with its own aggregate, and every reported rate has a confidence.
   */
  method FetchUniversalFx(sources: seq<Source>, sqrt: real -> real)
    returns (r: Option<(map<Currency, real>, map<Currency, real>)>)
    requires WeightsPositive(sources)
    ensures r.None? <==> sources == []
    ensures r.Some? ==> forall key :: Reported(r.value.0, r.value.1, key, Answer(sources, key, sqrt))
  {
    if sources == [] {
      return None;
    }
    hide Answer, QuotesFor, Aggregate, Weighed;
    var keys := KeysOf(sources);
    var rates: map<Currency, real>, confidences: map<Currency, real> := map[], map[];
    forall key | key !in keys ensures Answer(sources, key, sqrt) == None {
      NoAnswer(sources, key, sqrt);
    }
    hide Reported, WeightsPositive;
    forall key ensures Reported(rates, confidences, key, None) {
      NothingReported(key);
    }
    while keys != {}
      invariant forall key :: key in keys ==> Reported(rates, confidences, key, None)
      invariant forall key :: key !in keys ==> Reported(rates, confidences, key, Answer(sources, key, sqrt))
      decreases |keys|
    {
      var key :| key in keys;
      QuotesWeighed(sources, key);
      var values := QuotesOf(sources, key);
      var answer := AggregateKey(values, sqrt);
      AnswerIs(sources, key, sqrt);
      ghost var before := (rates, confidences);
      if answer.Some? {
        rates := rates[key := answer.value.0];
        confidences := confidences[key := answer.value.1];
      }
      ReportAdded(before.0, before.1, rates, confidences, key, answer);
      keys := keys - {key};
    }
    return Some((rates, confidences));
  }

  lemma NothingReported(key: Currency)
    ensures Reported(map[], map[], key, None)
  {
  }

  lemma ReportAdded(rates: map<Currency, real>, confidences: map<Currency, real>,
      rates': map<Currency, real>, confidences': map<Currency, real>, key: Currency, answer: Option<(real, real)>)
    requires Reported(rates, confidences, key, None)
    requires rates' == match answer case None => rates case Some(a) => rates[key := a.0]
    requires confidences' == match answer case None => confidences case Some(a) => confidences[key := a.1]
    ensures Reported(rates', confidences', key, answer)
    ensures forall k, a :: k != key && Reported(rates, confidences, k, a) ==> Reported(rates', confidences', k, a)
  {
  }

  lemma AnswerIs(sources: seq<Source>, key: Currency, sqrt: real -> real)
    requires WeightsPositive(sources) && Weighed(QuotesFor(sources, key))
    ensures Answer(sources, key, sqrt) == Aggregate(QuotesFor(sources, key), sqrt)
  {
  }

  lemma NoAnswer(sources: seq<Source>, key: Currency, sqrt: real -> real)
    requires WeightsPositive(sources) && forall i :: 0 <= i < |sources| ==> key !in sources[i].rates
    ensures Answer(sources, key, sqrt) == None
  {
    NoQuotes(sources, key);
  }

  ghost predicate Reported(rates: map<Currency, real>, confidences: map<Currency, real>, key: Currency,
                           r: Option<(real, real)>)
  {
    match r
    case None => key !in rates && key !in confidences
    case Some(pair) => key in rates && key in confidences && rates[key] == pair.0 && confidences[key] == pair.1
  }

  lemma {:induction false} NoQuotes(sources: seq<Source>, key: Currency)
    ensures QuotesFor(sources, key) == [] <==> forall i :: 0 <= i < |sources| ==> key !in sources[i].rates
  {
    if sources != [] {
      NoQuotes(sources[..|sources| - 1], key);
    }
  }

  method SpreadAround(qs: seq<Quote>, c: real) returns (spread: real)
    ensures spread == Spread(qs, c)
  {
    spread := 0.0;
    for i := 0 to |qs|
      invariant spread == Spread(qs[..i], c)
    {
      assert qs[..i + 1][..i] == qs[..i];
      spread := spread + qs[i].weight * ((qs[i].rate - c) * (qs[i].rate - c));
    }
    assert qs[..|qs|] == qs;
  }

  // ---------------------------------------------------------------- bounds

  /** All rates lie strictly between a and b. */
  predicate Between(qs: seq<Quote>, a: real, b: real) {
    forall i :: 0 <= i < |qs| ==> a < qs[i].rate < b
  }

  predicate Within(qs: seq<Quote>, lo: real, hi: real) {
    forall i :: 0 <= i < |qs| ==> lo <= qs[i].rate <= hi
  }

  lemma Scale(x: real, y: real, w: real)
    requires w > 0.0
    ensures x < y ==> x * w < y * w
    ensures x <= y ==> x * w <= y * w
  {
    if x < y {
      assert (y - x) * w > 0.0;
    }
  }

  /** The sums of a list, from those of the list without its last quote. */
  lemma SumsSnoc(qs: seq<Quote>, front: seq<Quote>, q: Quote, c: real)
    requires qs != [] && front == qs[..|qs| - 1] && q == qs[|qs| - 1]
    ensures TotalWeight(qs) == TotalWeight(front) + q.weight
    ensures WeightedSum(qs) == WeightedSum(front) + Weighted(q)
    ensures SquareSum(qs) == SquareSum(front) + Squared(q)
    ensures Spread(qs, c) == Spread(front, c) + Deviation(q, c)
  {
    hide Weighted, Squared, Deviation;
  }

  lemma SumsNil(c: real)
    ensures TotalWeight([]) == WeightedSum([]) == SquareSum([]) == Spread([], c) == 0.0
  {
  }

  lemma AddScaled(a: real, rate: real, w: real, t: real, s: real)
    requires w > 0.0 && a * t <= s
    ensures a <= rate ==> a * (t + w) <= s + rate * w
    ensures a < rate ==> a * (t + w) < s + rate * w
  {
    Scale(a, rate, w);
    Distribute(a, t, w);
  }

  lemma ScaledAdd(b: real, rate: real, w: real, t: real, s: real)
    requires w > 0.0 && s <= b * t
    ensures rate <= b ==> s + rate * w <= b * (t + w)
    ensures rate < b ==> s + rate * w < b * (t + w)
  {
    Scale(rate, b, w);
    Distribute(b, t, w);
  }

  lemma {:induction false} SumBetween(qs: seq<Quote>, a: real, b: real)
    requires Weighed(qs) && Between(qs, a, b)
    ensures a * TotalWeight(qs) <= WeightedSum(qs) <= b * TotalWeight(qs)
    ensures qs != [] ==> a * TotalWeight(qs) < WeightedSum(qs) < b * TotalWeight(qs)
  {
    hide TotalWeight, WeightedSum, SquareSum, Spread;
    if qs == [] {
      SumsNil(0.0);
    } else {
      var front, q := qs[..|qs| - 1], qs[|qs| - 1];
      SumsSnoc(qs, front, q, 0.0);
      SumBetween(front, a, b);
      AddScaled(a, q.rate, q.weight, TotalWeight(front), WeightedSum(front));
      ScaledAdd(b, q.rate, q.weight, TotalWeight(front), WeightedSum(front));
    }
  }

  lemma {:induction false} SumWithin(qs: seq<Quote>, lo: real, hi: real)
    requires Weighed(qs) && Within(qs, lo, hi)
    ensures lo * TotalWeight(qs) <= WeightedSum(qs) <= hi * TotalWeight(qs)
  {
    hide TotalWeight, WeightedSum, SquareSum, Spread;
    if qs == [] {
      SumsNil(0.0);
    } else {
      var front, q := qs[..|qs| - 1], qs[|qs| - 1];
      SumsSnoc(qs, front, q, 0.0);
      SumWithin(front, lo, hi);
      AddScaled(lo, q.rate, q.weight, TotalWeight(front), WeightedSum(front));
      ScaledAdd(hi, q.rate, q.weight, TotalWeight(front), WeightedSum(front));
    }
  }

  lemma DivideBounds(x: real, lo: real, hi: real, w: real)
    requires w > 0.0
    ensures lo * w < x ==> lo < x / w
    ensures x < hi * w ==> x / w < hi
    ensures lo * w <= x ==> lo <= x / w
    ensures x <= hi * w ==> x / w <= hi
    ensures x / w * w == x
  {
    var q := x / w;
    assert q * w == x;
    Scale(q, lo, w);
    Scale(hi, q, w);
  }

  /** A weighted mean lies between the least and the greatest rate. */
  lemma MeanWithin(qs: seq<Quote>, lo: real, hi: real)
    requires Weighed(qs) && qs != [] && Within(qs, lo, hi)
    ensures lo <= Mean(qs) <= hi
  {
    WeightPositive(qs);
    SumWithin(qs, lo, hi);
    DivideBounds(WeightedSum(qs), lo, hi, TotalWeight(qs));
  }

  lemma MeanBetween(qs: seq<Quote>, a: real, b: real)
    requires Weighed(qs) && qs != [] && Between(qs, a, b)
    ensures a < Mean(qs) < b
  {
    WeightPositive(qs);
    SumBetween(qs, a, b);
    DivideBounds(WeightedSum(qs), a, b, TotalWeight(qs));
  }

  /** Close to a positive mean means strictly within 10% of it. */
  lemma CloseMeans(rate: real, mean: real)
    ensures mean > 0.0 ==> (Close(rate, mean) <==> 0.9 * mean < rate < 1.1 * mean)
    ensures mean < 0.0 ==> Close(rate, mean)
  {
    var d := Abs(rate - mean);
    if mean > 0.0 {
      DivideBounds(d, 0.1, 0.1, mean);
      Scale(d / mean, 0.1, mean);
    } else if mean < 0.0 {
      NegativeQuotient(d, mean);
    }
  }

  lemma RetainedBetween(values: seq<Quote>, mean: real)
    requires mean > 0.0 && Weighed(values)
    ensures Weighed(Retained(values, mean)) && Between(Retained(values, mean), 0.9 * mean, 1.1 * mean)
  {
    hide Close, Retained;
    RetainedIsClose(values, mean);
    forall i | 0 <= i < |Retained(values, mean)|
      ensures 0.9 * mean < Retained(values, mean)[i].rate < 1.1 * mean
    {
      CloseMeans(Retained(values, mean)[i].rate, mean);
    }
  }

  /** With a negative mean the quotient is negative and nothing is rejected. */
  lemma {:induction false} NegativeMeanRetainsAll(qs: seq<Quote>, mean: real)
    requires mean < 0.0
    ensures Retained(qs, mean) == qs
  {
    hide Close;
    if qs != [] {
      NegativeMeanRetainsAll(qs[..|qs| - 1], mean);
      CloseMeans(qs[|qs| - 1].rate, mean);
    }
  }

  lemma {:induction false} ZeroMeanRetainsNone(qs: seq<Quote>)
    ensures Retained(qs, 0.0) == []
  {
    if qs != [] {
      ZeroMeanRetainsNone(qs[..|qs| - 1]);
    }
  }

  lemma FinalMeanNotZero(values: seq<Quote>)
    requires Weighed(values) && values != [] && Retained(values, Mean(values)) != []
    ensures Weighed(Retained(values, Mean(values))) && Mean(Retained(values, Mean(values))) != 0.0
  {
    var m := Mean(values);
    hide Close, Retained, Mean;
    ZeroMeanRetainsNone(values);
    if m > 0.0 {
      RetainedBetween(values, m);
      MeanBetween(Retained(values, m), 0.9 * m, 1.1 * m);
    } else if m < 0.0 {
      NegativeMeanRetainsAll(values, m);
    }
  }

  // ---------------------------------------------------------------- spread

  lemma {:induction false} SpreadExpands(qs: seq<Quote>, c: real)
    ensures Spread(qs, c) == SquareSum(qs) - 2.0 * c * WeightedSum(qs) + c * c * TotalWeight(qs)
  {
    hide TotalWeight, WeightedSum, SquareSum, Spread;
    if qs == [] {
      SumsNil(c);
    } else {
      var front, q := qs[..|qs| - 1], qs[|qs| - 1];
      SumsSnoc(qs, front, q, c);
      SpreadExpands(front, c);
      ExpandTerm(q.rate, q.weight, c);
      Distribute(2.0 * c, WeightedSum(front), q.rate * q.weight);
      Distribute(c * c, TotalWeight(front), q.weight);
    }
  }

  lemma Distribute(c: real, x: real, y: real)
    ensures c * (x + y) == c * x + c * y
  {
  }

  lemma ExpandTerm(v: real, w: real, c: real)
    ensures w * ((v - c) * (v - c)) == w * (v * v) - 2.0 * c * (v * w) + c * c * w
  {
    assert (v - c) * (v - c) == v * v - 2.0 * c * v + c * c;
    assert w * (v * v - 2.0 * c * v + c * c) == w * (v * v) - w * (2.0 * c * v) + w * (c * c);
    assert w * (2.0 * c * v) == 2.0 * c * (v * w);
  }

  lemma {:induction false} SquareSumBetween(qs: seq<Quote>, a: real, b: real)
    requires Weighed(qs) && Between(qs, a, b)
    ensures SquareSum(qs) <= (a + b) * WeightedSum(qs) - a * b * TotalWeight(qs)
    ensures qs != [] ==> SquareSum(qs) < (a + b) * WeightedSum(qs) - a * b * TotalWeight(qs)
  {
    hide TotalWeight, WeightedSum, SquareSum, Spread;
    if qs == [] {
      SumsNil(0.0);
    } else {
      var front, q := qs[..|qs| - 1], qs[|qs| - 1];
      SumsSnoc(qs, front, q, 0.0);
      SquareSumBetween(front, a, b);
      SquareTerm(q.rate, q.weight, a, b);
      Distribute(a + b, WeightedSum(front), q.rate * q.weight);
      Distribute(a * b, TotalWeight(front), q.weight);
    }
  }

  lemma SquareTerm(v: real, w: real, a: real, b: real)
    requires w > 0.0 && a < v < b
    ensures w * (v * v) < (a + b) * (v * w) - a * b * w
  {
    assert (v - a) * (b - v) > 0.0;
    assert (v - a) * (b - v) == (a + b) * v - a * b - v * v;
    Scale(0.0, (a + b) * v - a * b - v * v, w);
    assert ((a + b) * v - a * b - v * v) * w == (a + b) * (v * w) - a * b * w - w * (v * v);
  }

  /** Rates strictly between a and b: the variance is below (b - f)(f - a), f the mean. */
  lemma VarianceBound(qs: seq<Quote>, a: real, b: real)
    requires Weighed(qs) && qs != [] && Between(qs, a, b)
    ensures Variance(qs, Mean(qs)) < (b - Mean(qs)) * (Mean(qs) - a)
  {
    hide Spread, SquareSum, TotalWeight, WeightedSum;
    WeightPositive(qs);
    var w, s := TotalWeight(qs), WeightedSum(qs);
    var f := s / w;
    SpreadExpands(qs, f);
    SquareSumBetween(qs, a, b);
    SpreadBound(Spread(qs, f), SquareSum(qs), w, s, a, b);
  }

  lemma SpreadBound(spread: real, squares: real, w: real, s: real, a: real, b: real)
    requires w > 0.0
    requires spread == squares - 2.0 * (s / w) * s + (s / w) * (s / w) * w
    requires squares < (a + b) * s - a * b * w
    ensures spread / w < (b - s / w) * (s / w - a)
  {
    var f := s / w;
    assert f * w == s;
    MeanAlgebra(a, b, f, w, s);
    DivideBounds(spread, 0.0, (b - f) * (f - a), w);
  }

  lemma MeanAlgebra(a: real, b: real, f: real, w: real, s: real)
    requires s == f * w
    ensures (a + b) * s - a * b * w - 2.0 * f * s + f * f * w == (b - f) * (f - a) * w
  {
    assert (b - f) * (f - a) == (a + b) * f - a * b - f * f;
    assert ((a + b) * f - a * b - f * f) * w == (a + b) * (f * w) - a * b * w - f * (f * w);
    assert f * f * w == f * (f * w);
  }

  /** Within 10% of m, the variance is below a ninety-ninth of the squared mean. */
  lemma TenPercentVariance(qs: seq<Quote>, m: real)
    requires m > 0.0 && Weighed(qs) && qs != [] && Between(qs, 0.9 * m, 1.1 * m)
    ensures 99.0 * Variance(qs, Mean(qs)) < Mean(qs) * Mean(qs)
  {
    VarianceBound(qs, 0.9 * m, 1.1 * m);
    hide Mean, Variance;
    TenPercentAlgebra(Mean(qs), m);
  }

  lemma TenPercentAlgebra(f: real, m: real)
    ensures 99.0 * ((1.1 * m - f) * (f - 0.9 * m)) <= f * f
  {
    var d := 10.0 * f - 9.9 * m;
    assert d * d >= 0.0;
    assert d * d == 100.0 * (f * f) - 198.0 * (f * m) + 98.01 * (m * m);
    assert (1.1 * m - f) * (f - 0.9 * m) == 2.0 * (f * m) - 0.99 * (m * m) - f * f;
  }


  lemma VarianceNonNegative(qs: seq<Quote>, c: real)
    requires Weighed(qs) && qs != []
    ensures Variance(qs, c) >= 0.0
  {
    WeightPositive(qs);
    SpreadZero(qs, c);
    DivideBounds(Spread(qs, c), 0.0, 0.0, TotalWeight(qs));
  }

  // ---------------------------------------------------------------- the promises

  /**
   Whenever the first weighted mean is positive, whatever the number of sources: the reported
   rate lies strictly within 10% of it.
   */
  lemma RateNearMean(values: seq<Quote>)
    requires Weighed(values) && values != [] && Mean(values) > 0.0 && Retained(values, Mean(values)) != []
    ensures Weighed(Retained(values, Mean(values)))
    ensures 0.9 * Mean(values) < Mean(Retained(values, Mean(values))) < 1.1 * Mean(values)
  {
    hide Mean, Retained;
    RetainedBetween(values, Mean(values));
    MeanBetween(Retained(values, Mean(values)), 0.9 * Mean(values), 1.1 * Mean(values));
  }

  /**
   Positive rates and weights, any number of sources: the first mean is positive, whatever is
   reported lies strictly within 10% of it and between the least and the greatest retained
   rate, and the confidence is 1/2 for one retained source and above 8/9 for more.
   */
  lemma PositiveRatesAggregate(values: seq<Quote>, sqrt: real -> real, lo: real, hi: real)
    requires IsSqrt(sqrt) && Weighed(values) && values != [] && Aggregate(values, sqrt).Some?
    requires forall i :: 0 <= i < |values| ==> values[i].rate > 0.0
    requires forall q :: q in values && Close(q.rate, Mean(values)) ==> lo <= q.rate <= hi
    ensures var (rate, confidence) := Aggregate(values, sqrt).value;
      && 0.9 * Mean(values) < rate < 1.1 * Mean(values)
      && lo <= rate <= hi
      && (if |Retained(values, Mean(values))| > 1 then 8.0 / 9.0 < confidence <= 1.0 else confidence == 0.5)
  {
    var m := Mean(values);
    var kept := Retained(values, m);
    MeanPositive(values);
    RetainedIsClose(values, m);
    hide Mean, Retained, Close;
    assert Within(kept, lo, hi) by {
      forall i | 0 <= i < |kept| ensures lo <= kept[i].rate <= hi {
        assert kept[i] in kept;
      }
    }
    MeanWithin(kept, lo, hi);
    RateNearMean(values);
    if |kept| > 1 {
      ConfidenceBounds(values, sqrt);
    }
  }

  lemma MeanPositive(values: seq<Quote>)
    requires Weighed(values) && values != []
    requires forall i :: 0 <= i < |values| ==> values[i].rate > 0.0
    ensures Mean(values) > 0.0
  {
    hide TotalWeight, WeightedSum;
    WeightPositive(values);
    SumPositive(values);
    DivideBounds(WeightedSum(values), 0.0, 0.0, TotalWeight(values));
  }

  lemma {:induction false} SumPositive(qs: seq<Quote>)
    requires Weighed(qs) && forall i :: 0 <= i < |qs| ==> qs[i].rate > 0.0
    ensures WeightedSum(qs) >= 0.0 && (qs != [] ==> WeightedSum(qs) > 0.0)
  {
    if qs != [] {
      var q := qs[|qs| - 1];
      SumPositive(qs[..|qs| - 1]);
      PositiveProduct(q.rate, q.weight, Weighted(q));
    }
  }

  /**
   With two or more sources kept, the confidence is above 8/9 and at most 1; more sharply the
   relative deviation 1 - c satisfies 99 (1 - c)^2 < 1.
   */
  lemma ConfidenceBounds(values: seq<Quote>, sqrt: real -> real)
    requires IsSqrt(sqrt) && Weighed(values) && values != [] && Mean(values) > 0.0
    requires |Retained(values, Mean(values))| > 1
    ensures var kept := Retained(values, Mean(values));
      && Weighed(kept) && Mean(kept) > 0.0
      && 8.0 / 9.0 < Confidence(kept, sqrt) <= 1.0
      && 99.0 * Square(1.0 - Confidence(kept, sqrt)) < 1.0
  {
    hide Mean, Retained, Variance;
    var m := Mean(values);
    var kept := Retained(values, m);
    RetainedBetween(values, m);
    MeanBetween(kept, 0.9 * m, 1.1 * m);
    TenPercentVariance(kept, m);
    VarianceNonNegative(kept, Mean(kept));
    var relative := sqrt(Variance(kept, Mean(kept))) / Mean(kept);
    RelativeDeviation(sqrt(Variance(kept, Mean(kept))), Mean(kept));
  }

  lemma RelativeDeviation(s: real, f: real)
    requires s >= 0.0 && f > 0.0 && 99.0 * (s * s) < f * f
    ensures 0.0 <= s / f < 1.0 / 9.0
    ensures 99.0 * Square(s / f) < 1.0
  {
    hide Square;
    DivideBounds(s, 0.0, 0.0, f);
    RatioBelow(s / f, s, f);
    SquareBelow(s / f);
  }

  lemma RatioBelow(r: real, s: real, f: real)
    requires r * f == s && f > 0.0 && 99.0 * (s * s) < f * f
    ensures 99.0 * Square(r) < 1.0
  {
    var x, y := r * r, f * f;
    assert y > 0.0;
    assert s * s == x * y by {
      assert s * s == (r * f) * s == r * (f * s);
      assert f * s == f * (r * f) == r * y;
      assert r * (r * y) == x * y;
    }
    RatioBelowOne(x, y, s * s);
  }

  lemma RatioBelowOne(x: real, y: real, z: real)
    requires y > 0.0 && z == x * y && 99.0 * z < y
    ensures 99.0 * x < 1.0
  {
    Scale(1.0, 99.0 * x, y);
  }

  lemma SquareBelow(r: real)
    requires r >= 0.0 && 99.0 * Square(r) < 1.0
    ensures r < 1.0 / 9.0
  {
    var ninth := 1.0 / 9.0;
    assert (r - ninth) * (r - ninth) == r * r - 2.0 * ninth * r + ninth * ninth;
    assert r >= ninth ==> (r - ninth) * (r + ninth) >= 0.0;
    assert (r - ninth) * (r + ninth) == r * r - ninth * ninth;
  }

  predicate SameRate(qs: seq<Quote>) {
    forall i, j :: 0 <= i < |qs| && 0 <= j < |qs| ==> qs[i].rate == qs[j].rate
  }

  lemma DeviationZero(q: Quote, c: real)
    requires q.weight > 0.0
    ensures Deviation(q, c) >= 0.0 && (Deviation(q, c) == 0.0 <==> q.rate == c)
  {
    var d := q.rate - c;
    if d == 0.0 {
      assert d * d == 0.0;
    } else {
      PositiveProduct(Abs(d), Abs(d), d * d);
      PositiveProduct(q.weight, d * d, Deviation(q, c));
    }
  }

  lemma {:induction false} SpreadZero(qs: seq<Quote>, c: real)
    requires Weighed(qs)
    ensures Spread(qs, c) >= 0.0
    ensures Spread(qs, c) == 0.0 <==> forall i :: 0 <= i < |qs| ==> qs[i].rate == c
  {
    hide Deviation;
    if qs != [] {
      var front, q := qs[..|qs| - 1], qs[|qs| - 1];
      SpreadZero(front, c);
      DeviationZero(q, c);
      assert forall i :: 0 <= i < |front| ==> qs[i] == front[i];
    }
  }

  /** The retained rates vary exactly when two of them differ. */
  lemma VarianceZero(qs: seq<Quote>)
    requires Weighed(qs) && qs != []
    ensures Variance(qs, Mean(qs)) == 0.0 <==> SameRate(qs)
  {
    WeightPositive(qs);
    var w, c := TotalWeight(qs), Mean(qs);
    SpreadZero(qs, c);
    hide TotalWeight, Spread, WeightedSum;
    QuotientZero(Spread(qs, c), w);
    if SameRate(qs) {
      MeanWithin(qs, qs[0].rate, qs[0].rate);
    }
  }

  lemma QuotientZero(x: real, w: real)
    requires w > 0.0
    ensures x / w == 0.0 <==> x == 0.0
  {
  }

  lemma MeanSign(qs: seq<Quote>)
    requires Weighed(qs) && qs != []
    ensures Mean(qs) > 0.0 <==> WeightedSum(qs) > 0.0
    ensures Mean(qs) == 0.0 <==> WeightedSum(qs) == 0.0
  {
    WeightPositive(qs);
    hide TotalWeight, WeightedSum;
    QuotientZero(WeightedSum(qs), TotalWeight(qs));
    DivideBounds(WeightedSum(qs), 0.0, 0.0, TotalWeight(qs));
  }

  /**
   A negative weighted sum keeps every source and turns the confidence to 1 or more, so with
   two or more sources kept "at most 1" holds exactly when the weighted sum of the quoted rates
   is positive or all of them agree.
   */
  lemma ConfidenceAtMostOneIff(values: seq<Quote>, sqrt: real -> real)
    requires IsSqrt(sqrt) && Weighed(values) && values != [] && |Retained(values, Mean(values))| > 1
    ensures var kept := Retained(values, Mean(values));
      && Weighed(kept) && Mean(kept) != 0.0
      && (Confidence(kept, sqrt) <= 1.0 <==> WeightedSum(values) > 0.0 || SameRate(values))
  {
    MeanSign(values);
    hide Mean, Retained, Variance, Square, WeightedSum, SameRate;
    FinalMeanNotZero(values);
    ZeroMeanRetainsNone(values);
    if Mean(values) > 0.0 {
      hide Confidence;
      ConfidenceBounds(values, sqrt);
    } else {
      NegativeMeanRetainsAll(values, Mean(values));
      VarianceNonNegative(values, Mean(values));
      VarianceZero(values);
      ZeroSquare(sqrt(Variance(values, Mean(values))));
      NegativeQuotient(sqrt(Variance(values, Mean(values))), Mean(values));
    }
  }

  /** Rates of -1 and -2 are both kept and give a confidence above 1. */
  lemma NegativeRatesOverconfident(sqrt: real -> real)
    requires IsSqrt(sqrt)
    ensures var values := [Quote(-1.0, 1.0), Quote(-2.0, 1.0)];
      && Weighed(values) && Aggregate(values, sqrt).Some?
      && Aggregate(values, sqrt).value.0 == -1.5 && Aggregate(values, sqrt).value.1 > 1.0
  {
    var values := [Quote(-1.0, 1.0), Quote(-2.0, 1.0)];
    TwoSums(Quote(-1.0, 1.0), Quote(-2.0, 1.0));
    hide TotalWeight, WeightedSum, Retained, Confidence, IsSqrt;
    assert Mean(values) == -3.0 / 2.0;
    NegativeMeanRetainsAll(values, Mean(values));
    ConfidenceAtMostOneIff(values, sqrt);
    assert values[0].rate != values[1].rate;
  }

  lemma TwoSums(q: Quote, r: Quote)
    ensures TotalWeight([q, r]) == q.weight + r.weight && WeightedSum([q, r]) == Weighted(q) + Weighted(r)
  {
    hide Weighted;
    assert [q, r][..1] == [q] && [q][..0] == [];
    assert TotalWeight([q]) == q.weight && WeightedSum([q]) == Weighted(q);
  }

  lemma NegativeQuotient(s: real, f: real)
    requires s >= 0.0 && f < 0.0
    ensures s / f <= 0.0 && (s / f == 0.0 <==> s == 0.0)
  {
    NegativeFactor(s / f, s, f);
  }

  lemma NegativeFactor(r: real, s: real, f: real)
    requires s >= 0.0 && f < 0.0 && r * f == s
    ensures r <= 0.0 && (r == 0.0 <==> s == 0.0)
  {
    assert r > 0.0 ==> r * (-f) > 0.0;
    assert r < 0.0 ==> s > 0.0;
  }

  lemma ZeroSquare(s: real)
    requires s >= 0.0
    ensures Square(s) == 0.0 <==> s == 0.0
  {
    hide Square;
    if s > 0.0 {
      SquarePositive(s);
    } else {
      SquareOfZero();
    }
  }

  lemma SquarePositive(s: real)
    requires s > 0.0
    ensures Square(s) > 0.0
  {
    PositiveProduct(s, s, Square(s));
  }

  lemma SquareOfZero()
    ensures Square(0.0) == 0.0
  {
  }

  lemma PositiveProduct(x: real, y: real, product: real)
    requires x > 0.0 && y > 0.0 && product == x * y
    ensures product > 0.0
  {
  }
}
