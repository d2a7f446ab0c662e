/**
 What the reported rate and confidence are, in terms of the providers' own answers and weights:
 balance equations that determine them.
 */
module OracleLaws {
  import opened Bytes
  import opened Oracle

  // ---------------------------------------------------------------- sums over the providers

  /** Strictly within 10% of a positive mean; every rate of a negative one, none of zero. */
  predicate IsNear(rate: real, mean: real) {
    if mean > 0.0 then 0.9 * mean < rate < 1.1 * mean else mean < 0.0
  }

  /** The provider quotes the currency, near the given mean if there is one. */
  predicate Takes(source: Source, key: Currency, near: Option<real>) {
    key in source.rates && (near.Some? ==> IsNear(source.rates[key], near.value))
  }

  function Count(sources: seq<Source>, key: Currency, near: Option<real>): nat {
    if sources == [] then 0
    else
      var last := sources[|sources| - 1];
      Count(sources[..|sources| - 1], key, near) + if Takes(last, key, near) then 1 else 0
  }

  function Weight(sources: seq<Source>, key: Currency, near: Option<real>): real {
    if sources == [] then 0.0
    else
      var last := sources[|sources| - 1];
      Weight(sources[..|sources| - 1], key, near) + if Takes(last, key, near) then last.weight else 0.0
  }

  /** Weighted distances from c, with their signs. */
  function Moment(sources: seq<Source>, key: Currency, near: Option<real>, c: real): real {
    if sources == [] then 0.0
    else
      var last := sources[|sources| - 1];
      Moment(sources[..|sources| - 1], key, near, c) +
      if Takes(last, key, near) then last.weight * (last.rates[key] - c) else 0.0
  }

  /** Weighted squared distances from c. */
  function SquareMoment(sources: seq<Source>, key: Currency, near: Option<real>, c: real): real {
    if sources == [] then 0.0
    else
      var last := sources[|sources| - 1];
      SquareMoment(sources[..|sources| - 1], key, near, c) +
      if Takes(last, key, near) then last.weight * ((last.rates[key] - c) * (last.rates[key] - c)) else 0.0
  }

  // ---------------------------------------------------------------- the same over quotes

  /** The providers that list a currency. */
  function Listing(sources: seq<Source>, key: Currency): seq<nat> {
    if sources == [] then []
    else
      var n := |sources| - 1;
      Listing(sources[..n], key) + if key in sources[n].rates then [n] else []
  }

  /** Each provider that lists the currency once, in order, and no other. */
  lemma {:induction false} ListingExact(sources: seq<Source>, key: Currency)
    ensures forall i, j :: 0 <= i < j < |Listing(sources, key)| ==> Listing(sources, key)[i] < Listing(sources, key)[j]
    ensures forall i :: i in Listing(sources, key) <==> 0 <= i < |sources| && key in sources[i].rates
  {
    if sources != [] {
      var n := |sources| - 1;
      var front, before := sources[..n], Listing(sources[..n], key);
      ListingExact(front, key);
      assert forall i :: 0 <= i < n ==> front[i] == sources[i];
      forall i, j | 0 <= i < j < |Listing(sources, key)|
        ensures Listing(sources, key)[i] < Listing(sources, key)[j]
      {
        assert before[i] in before;
      }
    }
  }

  /** Their rates and weights are the quotes. */
  lemma {:induction false} QuotesExact(sources: seq<Source>, key: Currency, k: nat)
    requires k < |QuotesFor(sources, key)|
    ensures |Listing(sources, key)| == |QuotesFor(sources, key)|
    ensures var i := Listing(sources, key)[k];
      && i < |sources| && key in sources[i].rates
      && QuotesFor(sources, key)[k] == Quote(sources[i].rates[key], sources[i].weight)
  {
    var n := |sources| - 1;
    var front := sources[..n];
    SameLength(sources, key);
    SameLength(front, key);
    if k < |QuotesFor(front, key)| {
      QuotesExact(front, key, k);
      assert sources[Listing(front, key)[k]] == front[Listing(front, key)[k]];
    }
  }

  lemma {:induction false} SameLength(sources: seq<Source>, key: Currency)
    ensures |Listing(sources, key)| == |QuotesFor(sources, key)|
  {
    if sources != [] {
      SameLength(sources[..|sources| - 1], key);
    }
  }

  /** Exactly the close quotes are retained, each as often as it is quoted. */
  lemma {:induction false} RetainedExact(qs: seq<Quote>, mean: real, q: Quote)
    ensures multiset(Retained(qs, mean))[q] == if Close(q.rate, mean) then multiset(qs)[q] else 0
  {
    hide Close;
    if qs != [] {
      var front, last := qs[..|qs| - 1], qs[|qs| - 1];
      RetainedExact(front, mean, q);
      assert qs == front + [last];
    }
  }

  lemma NearIsClose(rate: real, mean: real)
    ensures Close(rate, mean) <==> IsNear(rate, mean)
  {
    CloseMeans(rate, mean);
    assert mean == 0.0 ==> !Close(rate, mean);
  }

  function Pull(q: Quote, c: real): real {
    q.weight * (q.rate - c)
  }

  function QuoteMoment(qs: seq<Quote>, c: real): real {
    if qs == [] then 0.0 else QuoteMoment(qs[..|qs| - 1], c) + Pull(qs[|qs| - 1], c)
  }

  /** The quotes the sums run over. */
  function Taken(sources: seq<Source>, key: Currency, near: Option<real>): seq<Quote> {
    match near
    case None => QuotesFor(sources, key)
    case Some(m) => Retained(QuotesFor(sources, key), m)
  }

  lemma TakenSnoc(sources: seq<Source>, key: Currency, near: Option<real>)
    requires sources != []
    ensures var front, last := sources[..|sources| - 1], sources[|sources| - 1];
      Taken(sources, key, near) == Taken(front, key, near) +
        if Takes(last, key, near) then [Quote(last.rates[key], last.weight)] else []
  {
    var front, last := sources[..|sources| - 1], sources[|sources| - 1];
    if key in last.rates {
      var q, qs := Quote(last.rates[key], last.weight), QuotesFor(front, key);
      assert QuotesFor(sources, key) == qs + [q] && (qs + [q])[..|qs|] == qs;
      if near.Some? {
        NearIsClose(q.rate, near.value);
      }
    } else {
      assert QuotesFor(sources, key) == QuotesFor(front, key);
    }
    hide Close, IsNear;
  }

  lemma SumsSnocQuote(qs: seq<Quote>, q: Quote, c: real)
    ensures TotalWeight(qs + [q]) == TotalWeight(qs) + q.weight
    ensures QuoteMoment(qs + [q], c) == QuoteMoment(qs, c) + Pull(q, c)
    ensures Spread(qs + [q], c) == Spread(qs, c) + Deviation(q, c)
  {
    hide Pull, Deviation, Weighted, Squared;
    assert (qs + [q])[..|qs|] == qs;
    SumsSnoc(qs + [q], qs, q, c);
  }

  lemma {:induction false} SumsOverQuotes(sources: seq<Source>, key: Currency, near: Option<real>, c: real)
    ensures var qs := Taken(sources, key, near);
      && |qs| == Count(sources, key, near) && TotalWeight(qs) == Weight(sources, key, near)
      && QuoteMoment(qs, c) == Moment(sources, key, near, c) && Spread(qs, c) == SquareMoment(sources, key, near, c)
  {
    if sources == [] {
      assert Taken(sources, key, near) == [];
    } else {
      var front, last := sources[..|sources| - 1], sources[|sources| - 1];
      TakenSnoc(sources, key, near);
      SourcesSnoc(sources, key, near, c);
      hide Taken, TotalWeight, QuoteMoment, Spread, Takes, Count, Weight, Moment, SquareMoment, Pull, Deviation;
      SumsOverQuotes(front, key, near, c);
      if Takes(last, key, near) {
        Listed(last, key, near);
        SumsSnocQuote(Taken(front, key, near), Quote(last.rates[key], last.weight), c);
      } else {
        assert Taken(front, key, near) + [] == Taken(front, key, near);
      }
    }
  }

  lemma SourcesSnoc(sources: seq<Source>, key: Currency, near: Option<real>, c: real)
    requires sources != []
    ensures var front, last := sources[..|sources| - 1], sources[|sources| - 1];
      if Takes(last, key, near) then
        var q := Quote(last.rates[key], last.weight);
        && Count(sources, key, near) == Count(front, key, near) + 1
        && Weight(sources, key, near) == Weight(front, key, near) + q.weight
        && Moment(sources, key, near, c) == Moment(front, key, near, c) + Pull(q, c)
        && SquareMoment(sources, key, near, c) == SquareMoment(front, key, near, c) + Deviation(q, c)
      else
        && Count(sources, key, near) == Count(front, key, near)
        && Weight(sources, key, near) == Weight(front, key, near)
        && Moment(sources, key, near, c) == Moment(front, key, near, c)
        && SquareMoment(sources, key, near, c) == SquareMoment(front, key, near, c)
  {
    hide IsNear;
  }

  lemma Listed(source: Source, key: Currency, near: Option<real>)
    requires Takes(source, key, near)
    ensures key in source.rates
  {
  }

  // ---------------------------------------------------------------- balance

  function Scaled(c: real, t: real): real {
    c * t
  }

  lemma {:induction false} MomentIs(qs: seq<Quote>, c: real)
    ensures QuoteMoment(qs, c) == WeightedSum(qs) - Scaled(c, TotalWeight(qs))
  {
    hide TotalWeight, WeightedSum, SquareSum, Spread, QuoteMoment, Pull, Weighted, Squared, Deviation, Scaled;
    if qs == [] {
      SumsNil(c);
      MomentNil(c);
    } else {
      var front, q := qs[..|qs| - 1], qs[|qs| - 1];
      SumsSnoc(qs, front, q, c);
      MomentSnoc(qs, front, q, c);
      MomentTerm(q, c, TotalWeight(front), TotalWeight(qs));
      MomentIs(front, c);
    }
  }

  lemma MomentNil(c: real)
    ensures QuoteMoment([], c) == 0.0 && Scaled(c, 0.0) == 0.0
  {
  }

  lemma MomentSnoc(qs: seq<Quote>, front: seq<Quote>, q: Quote, c: real)
    requires qs != [] && front == qs[..|qs| - 1] && q == qs[|qs| - 1]
    ensures QuoteMoment(qs, c) == QuoteMoment(front, c) + Pull(q, c)
  {
    hide Pull;
  }

  lemma MomentTerm(q: Quote, c: real, t: real, t': real)
    requires t' == t + q.weight
    ensures Pull(q, c) - Weighted(q) == Scaled(c, t) - Scaled(c, t')
  {
    assert c * t' == c * t + c * q.weight;
  }

  /** Around the mean the weighted distances cancel, and around nothing else. */
  lemma MeanBalances(qs: seq<Quote>, c: real)
    requires Weighed(qs) && qs != []
    ensures QuoteMoment(qs, c) == 0.0 <==> c == Mean(qs)
  {
    WeightPositive(qs);
    MomentIs(qs, c);
    hide TotalWeight, WeightedSum, QuoteMoment;
    QuotientIs(WeightedSum(qs), TotalWeight(qs), c);
  }

  lemma QuotientIs(s: real, w: real, c: real)
    requires w > 0.0
    ensures s - c * w == 0.0 <==> c == s / w
  {
    assert s / w * w == s;
    var d := c - s / w;
    assert c * w == s + d * w;
    if d != 0.0 {
      NonZeroProduct(d, w);
    }
  }

  lemma NonZeroProduct(d: real, w: real)
    requires d != 0.0 && w > 0.0
    ensures d * w != 0.0
  {
    if d > 0.0 {
      PositiveProduct(d, w, d * w);
    } else {
      PositiveProduct(-d, w, (-d) * w);
    }
  }

  /** The square of the confidence's distance from 1, for two or more quotes. */
  lemma ConfidenceSquared(kept: seq<Quote>, sqrt: real -> real)
    requires IsSqrt(sqrt) && Weighed(kept) && |kept| > 1 && Mean(kept) != 0.0
    requires sqrt(Variance(kept, Mean(kept))) / Mean(kept) < 1.0
    ensures Square(1.0 - Confidence(kept, sqrt)) * Square(Mean(kept)) * TotalWeight(kept) == Spread(kept, Mean(kept))
  {
    var f := Mean(kept);
    VarianceNonNegative(kept, f);
    WeightPositive(kept);
    var s, v, w := sqrt(Variance(kept, f)), Variance(kept, f), TotalWeight(kept);
    assert 1.0 - Confidence(kept, sqrt) == s / f;
    assert v == Spread(kept, f) / w;
    hide Mean, Variance, Spread, TotalWeight, Confidence, Square;
    QuotientSquared(s, f);
    assert Square(s) == v;
    assert v * w == Spread(kept, f) by {
      DivideBounds(Spread(kept, f), 0.0, 0.0, w);
    }
  }

  lemma QuotientSquared(s: real, f: real)
    requires f != 0.0
    ensures Square(s / f) * Square(f) == Square(s)
  {
    var r := s / f;
    assert r * f == s;
    assert (r * r) * (f * f) == (r * f) * (r * f);
  }

  /** The relative deviation is below 1 whatever the sign of the mean. */
  lemma DeviationBelowOne(values: seq<Quote>, sqrt: real -> real)
    requires IsSqrt(sqrt) && Weighed(values) && values != [] && |Retained(values, Mean(values))| > 1
    ensures var kept := Retained(values, Mean(values));
      Weighed(kept) && Mean(kept) != 0.0 && sqrt(Variance(kept, Mean(kept))) / Mean(kept) < 1.0
  {
    var m := Mean(values);
    var kept := Retained(values, m);
    hide Mean, Retained, Variance, Square;
    FinalMeanNotZero(values);
    ZeroMeanRetainsNone(values);
    VarianceNonNegative(kept, Mean(kept));
    if m > 0.0 {
      RetainedBetween(values, m);
      MeanBetween(kept, 0.9 * m, 1.1 * m);
      TenPercentVariance(kept, m);
      DeviationSquare(sqrt, Variance(kept, Mean(kept)), Mean(kept));
    } else {
      NegativeMeanRetainsAll(values, m);
      NegativeQuotient(sqrt(Variance(kept, Mean(kept))), Mean(kept));
    }
  }

  lemma DeviationSquare(sqrt: real -> real, v: real, f: real)
    requires IsSqrt(sqrt) && v >= 0.0 && f > 0.0 && 99.0 * v < f * f
    ensures sqrt(v) / f < 1.0
  {
    RelativeDeviation(sqrt(v), f);
  }

  /** Around m the weighted distances of all quotes cancel, and around nothing else. */
  lemma FirstMean(sources: seq<Source>, key: Currency) returns (m: real)
    requires WeightsPositive(sources) && Count(sources, key, None) > 0
    ensures Weighed(QuotesFor(sources, key)) && QuotesFor(sources, key) != [] && m == Mean(QuotesFor(sources, key))
    ensures forall c :: Moment(sources, key, None, c) == 0.0 <==> c == m
  {
    var values := QuotesFor(sources, key);
    QuotesWeighed(sources, key);
    SumsOverQuotes(sources, key, None, 0.0);
    m := Mean(values);
    hide Mean, QuotesFor, Moment, SquareMoment, Count, Weight, Spread, TotalWeight, QuoteMoment, Weighed;
    forall c
      ensures Moment(sources, key, None, c) == 0.0 <==> c == m
    {
      SumsOverQuotes(sources, key, None, c);
      MeanBalances(values, c);
    }
  }

  /** Rate and confidence of the near quotes. */
  ghost predicate Balances(sources: seq<Source>, key: Currency, m: real, r: real, c: real) {
    && Moment(sources, key, Some(m), r) == 0.0
    && (if Count(sources, key, Some(m)) == 1 then c == 0.5
        else Square(1.0 - c) * Square(r) * Weight(sources, key, Some(m)) == SquareMoment(sources, key, Some(m), r))
  }

  lemma NearBalances(sources: seq<Source>, key: Currency, sqrt: real -> real, values: seq<Quote>, m: real)
    requires IsSqrt(sqrt) && values == QuotesFor(sources, key) && Weighed(values) && values != [] && m == Mean(values)
    requires Retained(values, m) != []
    ensures Weighed(Retained(values, m)) && Mean(Retained(values, m)) != 0.0
    ensures Balances(sources, key, m, Mean(Retained(values, m)), Confidence(Retained(values, m), sqrt))
  {
    var kept := Retained(values, m);
    hide Mean, Retained, QuotesFor, Moment, SquareMoment, Count, Weight, Spread, TotalWeight, QuoteMoment, Weighed;
    hide Square, Variance;
    FinalMeanNotZero(values);
    SumsOverQuotes(sources, key, Some(m), Mean(kept));
    MeanBalances(kept, Mean(kept));
    if |kept| > 1 {
      hide Confidence;
      DeviationBelowOne(values, sqrt);
      ConfidenceSquared(kept, sqrt);
    }
  }

  /**
   What a currency gets, over the providers' own weights. There is one first mean m, around which
   the weighted distances of all quotes cancel. Nothing is reported exactly when no quote is near
   m. Otherwise the weighted distances of the near quotes cancel around the rate r; the
   confidence c is 1/2 for one near quote, and for more (1 - c)^2 r^2 times their weight is the
   weighted sum of their squared distances from r.
   */
  lemma AnswerExact(sources: seq<Source>, key: Currency, sqrt: real -> real) returns (m: real)
    requires IsSqrt(sqrt) && WeightsPositive(sources) && Count(sources, key, None) > 0
    ensures forall c :: Moment(sources, key, None, c) == 0.0 <==> c == m
    ensures Answer(sources, key, sqrt).None? <==> Count(sources, key, Some(m)) == 0
    ensures Answer(sources, key, sqrt).Some? ==>
      Balances(sources, key, m, Answer(sources, key, sqrt).value.0, Answer(sources, key, sqrt).value.1)
  {
    m := FirstMean(sources, key);
    var values := QuotesFor(sources, key);
    AnswerIs(sources, key, sqrt);
    SumsOverQuotes(sources, key, Some(m), 0.0);
    hide Mean, Retained, QuotesFor, Moment, SquareMoment, Count, Weight, Spread, TotalWeight, QuoteMoment, Weighed;
    hide Confidence, Balances, Answer, IsSqrt, WeightsPositive;
    if Retained(values, m) != [] {
      NearBalances(sources, key, sqrt, values, m);
    }
  }

  /** A currency no provider lists gets nothing. */
  lemma UnlistedHasNoAnswer(sources: seq<Source>, key: Currency, sqrt: real -> real)
    requires WeightsPositive(sources) && Count(sources, key, None) == 0
    ensures Answer(sources, key, sqrt) == None
  {
    SumsOverQuotes(sources, key, None, 0.0);
  }
}
