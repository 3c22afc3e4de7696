/** The arithmetic of the traffic-light allocator in 2021/Actual/sean.py: street
    utility, weights normalised to sum to one, green times scaled so that the
    least-weighted street gets 1, rounding as numpy's `round` does (exact halves to
    even), and the stable sort by descending green time that orders each schedule.
    Reals are exact here; the source computes in IEEE doubles. */
module GreenTimes {
  import opened Basics
  import opened Traffic

  /** The utility `calc_score` gives a street: `(1 / length) * a + cars_using * b`. */
  function Utility(length: int, carsUsing: int, a: real, b: real): real
    requires length != 0
  {
    (1.0 / length as real) * a + carsUsing as real * b
  }

  /** With the positive coefficients the source uses, every street of positive length
      has a positive utility. */
  lemma UtilityPositive(length: int, carsUsing: nat, a: real, b: real)
    requires length > 0 && a > 0.0 && b >= 0.0
    ensures Utility(length, carsUsing, a, b) > 0.0
  {
    assert 1.0 / length as real > 0.0;
    MulPositive(1.0 / length as real, a);
    assert carsUsing as real * b >= 0.0;
  }

  /** A busier street scores higher than a quieter one of the same length. */
  lemma UtilityGrowsWithTraffic(length: int, c1: nat, c2: nat, a: real, b: real)
    requires length != 0 && b > 0.0 && c1 < c2
    ensures Utility(length, c1, a, b) < Utility(length, c2, a, b)
  {
    assert c1 as real * b < c2 as real * b;
  }

  function Total(s: seq<real>): real
  {
    if s == [] then 0.0 else Total(s[..|s| - 1]) + s[|s| - 1]
  }

  /** A non-empty sequence of positive reals has a positive sum. */
  lemma {:induction false} TotalPositive(s: seq<real>)
    requires |s| > 0 && forall i :: 0 <= i < |s| ==> s[i] > 0.0
    ensures Total(s) > 0.0
  {
    if |s| > 1 {
      TotalPositive(s[..|s| - 1]);
    }
  }

  /** `s` with every element divided by `t`. */
  function Divided(s: seq<real>, t: real): (r: seq<real>)
    requires t != 0.0
    ensures |r| == |s|
  {
    seq(|s|, i requires 0 <= i < |s| => s[i] / t)
  }

  lemma {:induction false} TotalDivided(s: seq<real>, t: real)
    requires t != 0.0
    ensures Total(Divided(s, t)) == Total(s) / t
  {
    if s != [] {
      var init := s[..|s| - 1];
      TotalDivided(init, t);
      assert Divided(s, t)[..|s| - 1] == Divided(init, t);
      assert Total(Divided(s, t)) == Total(init) / t + s[|s| - 1] / t;
    }
  }

  /** `weight_streets`: each score divided by the total. An intersection without
      incoming streets has no scores and no weights. */
  function Weights(scores: seq<real>): (w: seq<real>)
    requires scores == [] || Total(scores) != 0.0
    ensures |w| == |scores|
  {
    if scores == [] then [] else Divided(scores, Total(scores))
  }

  /** The weights of a non-zero total sum to one. */
  lemma WeightsSumToOne(scores: seq<real>)
    requires Total(scores) != 0.0
    ensures Total(Weights(scores)) == 1.0
  {
    assert scores != [];
    TotalDivided(scores, Total(scores));
    assert Total(scores) / Total(scores) == 1.0;
  }

  /** Positive scores give positive weights. */
  lemma WeightsPositive(scores: seq<real>)
    requires |scores| > 0 && forall i :: 0 <= i < |scores| ==> scores[i] > 0.0
    ensures Total(scores) > 0.0
    ensures forall i :: 0 <= i < |scores| ==> 0.0 < Weights(scores)[i]
  {
    TotalPositive(scores);
  }

  /** Each weight is its score's share of the total. */
  lemma WeightsShare(scores: seq<real>)
    requires |scores| > 0 && forall i :: 0 <= i < |scores| ==> scores[i] > 0.0
    ensures Total(scores) > 0.0
    ensures forall i :: 0 <= i < |scores| ==> Weights(scores)[i] * Total(scores) == scores[i]
  {
    TotalPositive(scores);
  }

  /** The position of a least element of `s`. */
  function ArgMin(s: seq<real>): (k: nat)
    requires |s| > 0
    ensures k < |s|
    ensures forall i :: 0 <= i < |s| ==> s[k] <= s[i]
  {
    if |s| == 1 then 0
    else
      var k' := ArgMin(s[..|s| - 1]);
      assert forall i :: 0 <= i < |s| - 1 ==> s[..|s| - 1][i] == s[i];
      if s[|s| - 1] <= s[k'] then |s| - 1 else k'
  }

  /** `np.min`: the least element. */
  function MinOf(s: seq<real>): (m: real)
    requires |s| > 0
    ensures forall i :: 0 <= i < |s| ==> m <= s[i]
  {
    s[ArgMin(s)]
  }

  lemma MulMonotone(x: real, y: real, c: real)
    requires x <= y && c > 0.0
    ensures x * c <= y * c
  {
  }

  /** Scaling by a positive factor scales the minimum. */
  lemma MinOfScaled(s: seq<real>, c: real, scaled: seq<real>)
    requires |s| > 0 && c > 0.0 && |scaled| == |s|
    requires forall i :: 0 <= i < |s| ==> scaled[i] == s[i] * c
    ensures MinOf(scaled) == MinOf(s) * c
  {
    var j, k := ArgMin(scaled), ArgMin(s);
    assert scaled[j] <= scaled[k];
    assert s[k] <= s[j];
    MulMonotone(s[k], s[j], c);
  }

  /** A share of a total, scaled by `avg`, is the score scaled by `avg / total`. */
  lemma ShareScaled(x: real, total: real, avg: real)
    requires total > 0.0
    ensures (x / total) * avg == x * (avg / total)
  {
  }

  /** A common positive factor cancels from a quotient. */
  lemma CancelFactor(a: real, b: real, x: real, m: real, c: real)
    requires m > 0.0 && c > 0.0 && a == x * c && b == m * c
    ensures a / b == x / m
  {
  }

  /** `np.round`: to the nearest integer, exact halves to the even neighbour. */
  function RoundHalfEven(x: real): (r: int)
    ensures r as real - 0.5 <= x <= r as real + 0.5
    ensures (x == r as real - 0.5 || x == r as real + 0.5) ==> r % 2 == 0
  {
    var f := x.Floor;
    var d := x - f as real;
    if d < 0.5 then f
    else if d > 0.5 then f + 1
    else if f % 2 == 0 then f
    else f + 1
  }

  /** Rounding preserves order, so a larger weight never gets a shorter green time. */
  lemma RoundMonotone(x: real, y: real)
    requires x <= y
    ensures RoundHalfEven(x) <= RoundHalfEven(y)
  {
  }

  /** Rounding an integer gives it back. */
  lemma RoundIntegral(n: int)
    ensures RoundHalfEven(n as real) == n
  {
  }

  /** Each weight times the average time `D / n`. */
  function RawTimes(weights: seq<real>, D: int): (orig: seq<real>)
    requires |weights| > 0
    ensures |orig| == |weights|
  {
    var avg := D as real / |weights| as real;
    seq(|weights|, i requires 0 <= i < |weights| => weights[i] * avg)
  }

  /** `find_street_times` outside its degenerate branch: each weight times `D / n`,
      divided by the smallest such value, rounded. */
  function StreetTimes(weights: seq<real>, D: int): (times: seq<int>)
    requires |weights| > 0 && D > 0
    requires forall i :: 0 <= i < |weights| ==> weights[i] > 0.0
    ensures |times| == |weights|
  {
    var orig := RawTimes(weights, D);
    RawTimesPositive(weights, D);
    var m := MinOf(orig);
    seq(|weights|, i requires 0 <= i < |weights| => RoundHalfEven(orig[i] / m))
  }

  lemma StreetTimesAt(weights: seq<real>, D: int, i: nat)
    requires |weights| > 0 && D > 0 && i < |weights|
    requires forall i :: 0 <= i < |weights| ==> weights[i] > 0.0
    ensures MinOf(RawTimes(weights, D)) > 0.0
    ensures StreetTimes(weights, D)[i] == RoundHalfEven(RawTimes(weights, D)[i] / MinOf(RawTimes(weights, D)))
  {
    RawTimesPositive(weights, D);
  }

  lemma MulPositive(x: real, y: real)
    requires x > 0.0 && y > 0.0
    ensures x * y > 0.0
  {
  }

  /** Positive weights and a positive duration give positive raw times. */
  lemma RawTimesPositive(weights: seq<real>, D: int)
    requires |weights| > 0 && D > 0
    requires forall i :: 0 <= i < |weights| ==> weights[i] > 0.0
    ensures forall i :: 0 <= i < |weights| ==> RawTimes(weights, D)[i] > 0.0
  {
    var avg := D as real / |weights| as real;
    forall i | 0 <= i < |weights|
      ensures RawTimes(weights, D)[i] > 0.0
    {
      MulPositive(weights[i], avg);
    }
  }

  /** The raw time of a street is its score times one factor common to the intersection. */
  lemma RawTimesProportional(scores: seq<real>, D: int) returns (c: real)
    requires |scores| > 0 && D > 0
    requires forall i :: 0 <= i < |scores| ==> scores[i] > 0.0
    ensures c > 0.0 && Total(scores) > 0.0
    ensures forall i :: 0 <= i < |scores| ==> RawTimes(Weights(scores), D)[i] == scores[i] * c
  {
    WeightsPositive(scores);
    var total := Total(scores);
    var avg := D as real / |scores| as real;
    c := avg / total;
    forall i | 0 <= i < |scores|
      ensures RawTimes(Weights(scores), D)[i] == scores[i] * c
    {
      assert Weights(scores)[i] == scores[i] / total;
      ShareScaled(scores[i], total, avg);
    }
  }

  /** The least of positive reals is positive. */
  lemma MinOfPositive(s: seq<real>)
    requires |s| > 0 && forall i :: 0 <= i < |s| ==> s[i] > 0.0
    ensures MinOf(s) > 0.0
  {
    assert MinOf(s) == s[ArgMin(s)];
  }

  /** An element over a minimum, both scaled by the same positive factor. */
  lemma ScaledRatio(orig: seq<real>, scores: seq<real>, c: real, i: nat, om: real, sm: real)
    requires |orig| == |scores| && i < |scores| && c > 0.0 && sm > 0.0 && om == sm * c
    requires forall k :: 0 <= k < |scores| ==> orig[k] == scores[k] * c
    ensures om > 0.0
    ensures orig[i] / om == scores[i] / sm
  {
    MulPositive(sm, c);
    CancelFactor(orig[i], om, scores[i], sm, c);
  }

  /** Ratios to the minimum are unchanged by a common positive factor. */
  lemma RatioFromScale(orig: seq<real>, scores: seq<real>, c: real, i: nat)
    requires |orig| == |scores| && i < |scores| && c > 0.0
    requires forall k :: 0 <= k < |scores| ==> scores[k] > 0.0
    requires forall k :: 0 <= k < |scores| ==> orig[k] == scores[k] * c
    ensures MinOf(scores) > 0.0 && MinOf(orig) > 0.0
    ensures orig[i] / MinOf(orig) == scores[i] / MinOf(scores)
  {
    MinOfScaled(scores, c, orig);
    MinOfPositive(scores);
    ScaledRatio(orig, scores, c, i, MinOf(orig), MinOf(scores));
  }

  /** Dividing a raw time by the least raw time cancels the common factor. */
  lemma RawRatio(scores: seq<real>, D: int, i: nat)
    requires |scores| > 0 && D > 0 && i < |scores|
    requires forall i :: 0 <= i < |scores| ==> scores[i] > 0.0
    ensures Total(scores) > 0.0
    ensures MinOf(scores) > 0.0
    ensures MinOf(RawTimes(Weights(scores), D)) > 0.0
    ensures RawTimes(Weights(scores), D)[i] / MinOf(RawTimes(Weights(scores), D)) == scores[i] / MinOf(scores)
  {
    var c := RawTimesProportional(scores, D);
    RatioFromScale(RawTimes(Weights(scores), D), scores, c, i);
  }

  /** One street's green time is its score over the least score, rounded. */
  lemma StreetTimeIsRatio(scores: seq<real>, D: int, i: nat)
    requires |scores| > 0 && D > 0 && i < |scores|
    requires forall i :: 0 <= i < |scores| ==> scores[i] > 0.0
    ensures Total(scores) > 0.0
    ensures forall i :: 0 <= i < |scores| ==> Weights(scores)[i] > 0.0
    ensures StreetTimes(Weights(scores), D)[i] == RoundHalfEven(scores[i] / MinOf(scores))
  {
    WeightsPositive(scores);
    StreetTimesAt(Weights(scores), D, i);
    RawRatio(scores, D, i);
  }

  /** The `D / n` factor and the total cancel: the green time of street `i` is its
      score divided by the least score, rounded. */
  lemma StreetTimesAreRatios(scores: seq<real>, D: int)
    requires |scores| > 0 && D > 0
    requires forall i :: 0 <= i < |scores| ==> scores[i] > 0.0
    ensures Total(scores) > 0.0
    ensures forall i :: 0 <= i < |scores| ==> Weights(scores)[i] > 0.0
    ensures forall i :: 0 <= i < |scores| ==>
      StreetTimes(Weights(scores), D)[i] == RoundHalfEven(scores[i] / MinOf(scores))
  {
    WeightsPositive(scores);
    forall i | 0 <= i < |scores|
      ensures StreetTimes(Weights(scores), D)[i] == RoundHalfEven(scores[i] / MinOf(scores))
    {
      StreetTimeIsRatio(scores, D, i);
    }
  }

  /** A ratio of at least one rounds to at least one. */
  lemma RoundedRatioAtLeastOne(x: real, m: real)
    requires 0.0 < m <= x
    ensures RoundHalfEven(x / m) >= 1
  {
    assert x / m >= 1.0;
    RoundMonotone(1.0, x / m);
    RoundIntegral(1);
  }

  /** The minimum over itself rounds to exactly one. */
  lemma RoundedRatioOne(m: real)
    requires m > 0.0
    ensures RoundHalfEven(m / m) == 1
  {
    assert m / m == 1.0;
    RoundIntegral(1);
  }

  /** Dividing by a common positive minimum and rounding preserves order. */
  lemma RoundedRatioMonotone(x: real, y: real, m: real)
    requires x <= y && m > 0.0
    ensures RoundHalfEven(x / m) <= RoundHalfEven(y / m)
  {
    assert x / m <= y / m;
    RoundMonotone(x / m, y / m);
  }

  /** Street `i`'s green time is at least 1, and exactly 1 when its score is least. */
  lemma StreetTimeAtLeastOne(scores: seq<real>, D: int, i: nat)
    requires |scores| > 0 && D > 0 && i < |scores|
    requires forall i :: 0 <= i < |scores| ==> scores[i] > 0.0
    ensures Total(scores) > 0.0
    ensures forall i :: 0 <= i < |scores| ==> Weights(scores)[i] > 0.0
    ensures StreetTimes(Weights(scores), D)[i] >= 1
    ensures scores[i] == MinOf(scores) ==> StreetTimes(Weights(scores), D)[i] == 1
  {
    StreetTimeIsRatio(scores, D, i);
    MinOfPositive(scores);
    RoundedRatioAtLeastOne(scores[i], MinOf(scores));
    if scores[i] == MinOf(scores) {
      RoundedRatioOne(MinOf(scores));
    }
  }

  /** A street with a score no higher than another's gets no longer a green time. */
  lemma StreetTimeMonotone(scores: seq<real>, D: int, i: nat, j: nat)
    requires |scores| > 0 && D > 0 && i < |scores| && j < |scores|
    requires forall i :: 0 <= i < |scores| ==> scores[i] > 0.0
    requires scores[i] <= scores[j]
    ensures Total(scores) > 0.0
    ensures forall i :: 0 <= i < |scores| ==> Weights(scores)[i] > 0.0
    ensures StreetTimes(Weights(scores), D)[i] <= StreetTimes(Weights(scores), D)[j]
  {
    StreetTimeIsRatio(scores, D, i);
    StreetTimeIsRatio(scores, D, j);
    MinOfPositive(scores);
    RoundedRatioMonotone(scores[i], scores[j], MinOf(scores));
  }

  /** The normalisation promised by the allocator: every green time is at least 1, a
      street with the least score gets exactly 1, and a higher score never gets less. */
  lemma StreetTimesNormalised(scores: seq<real>, D: int)
    requires |scores| > 0 && D > 0
    requires forall i :: 0 <= i < |scores| ==> scores[i] > 0.0
    ensures Total(scores) > 0.0
    ensures forall i :: 0 <= i < |scores| ==> Weights(scores)[i] > 0.0
    ensures forall i :: 0 <= i < |scores| ==> StreetTimes(Weights(scores), D)[i] >= 1
    ensures forall i :: 0 <= i < |scores| && scores[i] == MinOf(scores) ==> StreetTimes(Weights(scores), D)[i] == 1
    ensures forall i, j :: 0 <= i < |scores| && 0 <= j < |scores| && scores[i] <= scores[j] ==>
      StreetTimes(Weights(scores), D)[i] <= StreetTimes(Weights(scores), D)[j]
  {
    WeightsPositive(scores);
    forall i | 0 <= i < |scores|
      ensures StreetTimes(Weights(scores), D)[i] >= 1
      ensures scores[i] == MinOf(scores) ==> StreetTimes(Weights(scores), D)[i] == 1
    {
      StreetTimeAtLeastOne(scores, D, i);
    }
    forall i, j | 0 <= i < |scores| && 0 <= j < |scores| && scores[i] <= scores[j]
      ensures StreetTimes(Weights(scores), D)[i] <= StreetTimes(Weights(scores), D)[j]
    {
      StreetTimeMonotone(scores, D, i, j);
    }
  }

  /** The scores of the example below: the least is 1. */
  lemma ExampleMin()
    ensures MinOf([10.0, 5.0, 1.0]) == 1.0
  {
    var s := [10.0, 5.0, 1.0];
    assert MinOf(s) == s[ArgMin(s)];
  }

  lemma ExampleSum()
    ensures Sum([10, 5, 1]) == 16
  {
    assert [10, 5, 1][1..] == [5, 1] && [5, 1][1..] == [1] && [1][1..] == [];
  }

  /** The green times are not clamped to the duration: scores 10, 5 and 1 at an
      intersection with `D = 6` give times 10, 5 and 1, which add up to 16. */
  lemma UnclampedBudget()
    ensures Total([10.0, 5.0, 1.0]) > 0.0
    ensures forall i :: 0 <= i < 3 ==> Weights([10.0, 5.0, 1.0])[i] > 0.0
    ensures StreetTimes(Weights([10.0, 5.0, 1.0]), 6) == [10, 5, 1]
    ensures Sum(StreetTimes(Weights([10.0, 5.0, 1.0]), 6)) > 6
  {
    var s := [10.0, 5.0, 1.0];
    WeightsPositive(s);
    ExampleMin();
    StreetTimeIsRatio(s, 6, 0);
    StreetTimeIsRatio(s, 6, 1);
    StreetTimeIsRatio(s, 6, 2);
    RoundIntegral(10);
    RoundIntegral(5);
    RoundIntegral(1);
    var t := StreetTimes(Weights(s), 6);
    assert t[0] == 10 && t[1] == 5 && t[2] == 1;
    assert t == [10, 5, 1];
    ExampleSum();
  }

  /** Whether street `i` comes before street `j` in a schedule: a longer green time
      first, and on equal times the earlier street first (the sort is stable). */
  predicate Before(times: seq<int>, i: nat, j: nat)
    requires i < |times| && j < |times|
  {
    times[i] > times[j] || (times[i] == times[j] && i < j)
  }

  predicate Ordered(times: seq<int>, order: seq<nat>)
  {
    && (forall k :: 0 <= k < |order| ==> order[k] < |times|)
    && (forall a, b :: 0 <= a < b < |order| ==> Before(times, order[a], order[b]))
  }

  /** Inserts index `x` into an ordered list of indices. */
  function Insert(times: seq<int>, x: nat, order: seq<nat>): (r: seq<nat>)
    requires x < |times| && forall k :: 0 <= k < |order| ==> order[k] < |times|
    ensures |r| == |order| + 1
    ensures forall y :: y in r <==> y == x || y in order
    ensures forall k :: 0 <= k < |r| ==> r[k] < |times|
  {
    if order == [] then [x]
    else if Before(times, x, order[0]) then [x] + order
    else [order[0]] + Insert(times, x, order[1..])
  }

  lemma {:induction false} InsertOrdered(times: seq<int>, x: nat, order: seq<nat>)
    requires x < |times| && x !in order && Ordered(times, order)
    ensures Ordered(times, Insert(times, x, order))
  {
    if order == [] {
    } else if Before(times, x, order[0]) {
      forall y | y in order
        ensures Before(times, x, y)
      {
        var j :| 0 <= j < |order| && order[j] == y;
        if j > 0 {
          assert Before(times, order[0], order[j]);
        }
      }
      OrderedCons(times, x, order);
    } else {
      var rest := order[1..];
      OrderedTail(times, order);
      InsertOrdered(times, x, rest);
      var tail := Insert(times, x, rest);
      forall y | y in tail
        ensures Before(times, order[0], y)
      {
        if y != x {
          var j :| 0 <= j < |rest| && rest[j] == y;
          assert order[j + 1] == y;
        }
      }
      OrderedCons(times, order[0], tail);
    }
  }

  lemma OrderedTail(times: seq<int>, order: seq<nat>)
    requires order != [] && Ordered(times, order)
    ensures Ordered(times, order[1..])
  {
    var rest := order[1..];
    forall a, b | 0 <= a < b < |rest|
      ensures Before(times, rest[a], rest[b])
    {
      assert rest[a] == order[a + 1] && rest[b] == order[b + 1];
    }
  }

  lemma OrderedCons(times: seq<int>, h: nat, tail: seq<nat>)
    requires h < |times| && Ordered(times, tail)
    requires forall y :: y in tail ==> y < |times| && Before(times, h, y)
    ensures Ordered(times, [h] + tail)
  {
    var r := [h] + tail;
    forall a, b | 0 <= a < b < |r|
      ensures Before(times, r[a], r[b])
    {
      assert r[b] == tail[b - 1];
      if a > 0 {
        assert r[a] == tail[a - 1];
      }
    }
  }


  /** The indices below `k`, ordered by `Before`: insertion sort. */
  function SortIndices(times: seq<int>, k: nat): (order: seq<nat>)
    requires k <= |times|
    ensures |order| == k
    ensures forall i: int :: i in order <==> 0 <= i < k
    ensures forall j :: 0 <= j < |order| ==> order[j] < |times|
  {
    if k == 0 then [] else Insert(times, k - 1, SortIndices(times, k - 1))
  }

  /** The order `sorted(..., key=time, reverse=True)` lists the streets in. */
  function ScheduleOrder(times: seq<int>): seq<nat>
  {
    SortIndices(times, |times|)
  }

  lemma {:induction false} SortIndicesOrdered(times: seq<int>, k: nat)
    requires k <= |times|
    ensures Ordered(times, SortIndices(times, k))
  {
    if k > 0 {
      SortIndicesOrdered(times, k - 1);
      InsertOrdered(times, k - 1, SortIndices(times, k - 1));
    }
  }

  /** The schedule order lists every street exactly once, green times never increase
      along it, and streets with equal times keep their input order. */
  lemma ScheduleOrderSorted(times: seq<int>)
    ensures |ScheduleOrder(times)| == |times|
    ensures forall i :: 0 <= i < |times| ==> i in ScheduleOrder(times)
    ensures forall a, b :: 0 <= a < b < |times| ==> ScheduleOrder(times)[a] != ScheduleOrder(times)[b]
    ensures forall a, b :: 0 <= a < b < |times| ==> times[ScheduleOrder(times)[a]] >= times[ScheduleOrder(times)[b]]
    ensures forall a, b :: 0 <= a < b < |times| && times[ScheduleOrder(times)[a]] == times[ScheduleOrder(times)[b]] ==>
      ScheduleOrder(times)[a] < ScheduleOrder(times)[b]
  {
    SortIndicesOrdered(times, |times|);
  }

  /** The record `objective` builds for an intersection from its incoming streets and
      green times: the declared count is the number of green times, and `zip` pairs
      the streets with the times only as far as both reach. */
  function ScheduleRecord(id: int, streets: seq<StreetInfo>, times: seq<int>): Record
  {
    var order := ScheduleOrder(times[..Min(|streets|, |times|)]);
    Record(id, |times|, seq(|order|, k requires 0 <= k < |order| => Light(streets[order[k]].name, times[order[k]])))
  }

  /** A schedule record lists each of its streets once, with that street's own green
      time, by non-increasing time, equal times in input order. */
  lemma ScheduleRecordOrdered(id: int, streets: seq<StreetInfo>, times: seq<int>)
    requires |times| == |streets|
    ensures ScheduleRecord(id, streets, times).count == |streets|
    ensures |ScheduleRecord(id, streets, times).lights| == |streets|
    ensures forall k :: 0 <= k < |streets| ==>
      ScheduleRecord(id, streets, times).lights[k] == Light(streets[ScheduleOrder(times)[k]].name, times[ScheduleOrder(times)[k]])
    ensures forall i :: 0 <= i < |streets| ==> i in ScheduleOrder(times)
    ensures forall a, b :: 0 <= a < b < |streets| ==>
      ScheduleRecord(id, streets, times).lights[a].time >= ScheduleRecord(id, streets, times).lights[b].time
    ensures forall a, b :: 0 <= a < b < |streets| && times[ScheduleOrder(times)[a]] == times[ScheduleOrder(times)[b]] ==>
      ScheduleOrder(times)[a] < ScheduleOrder(times)[b]
  {
    assert times[..Min(|streets|, |times|)] == times;
    ScheduleOrderSorted(times);
  }

  /** An intersection whose green times were never set gets a record that declares
      0 lights and lists none. */
  lemma EmptyScheduleRecord(id: int, streets: seq<StreetInfo>)
    ensures ScheduleRecord(id, streets, []) == Record(id, 0, [])
  {
    assert ScheduleOrder([]) == [];
  }
}
