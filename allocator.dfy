/** The traffic-light allocator of 2021/Actual/sean.py as the objects it updates: a
    table of `Street` objects whose `cars_using` and `score` fields are filled in by a
    tally and a scoring pass, and one `Intersection` object per id whose fields are set
    by `find_streets_at_intersection`, `weight_streets` and `find_street_times`. The
    pure arithmetic those methods perform lives in `GreenTimes`; here it is tied to the
    state it lands in, and the whole pipeline is proved equal to `SeanOutcome`. */
module Allocator {
  import opened Basics
  import opened Traffic
  import opened GreenTimes

  /** `calc_score`'s default coefficients `a` and `b`. */
  const LengthWeight: real := 100.0
  const TrafficWeight: real := 1.0

  class Street {
    const start: int
    const end: int
    const name: string
    const length: int
    var score: real
    var carsUsing: nat

    /** The street line this object was built from. */
    function Info(): StreetInfo
    {
      StreetInfo(start, end, name, length)
    }

    constructor (info: StreetInfo)
      ensures Info() == info
      ensures score == 0.0 && carsUsing == 0
    {
      start, end, name, length := info.start, info.end, info.name, info.length;
      score, carsUsing := 0.0, 0;
    }

    /** `calc_score`: only the score changes, and it becomes the street's utility. */
    method CalcScore(a: real, b: real)
      requires length != 0
      modifies this`score
      ensures score == Utility(length, carsUsing, a, b)
    {
      score := (1.0 / length as real) * a + carsUsing as real * b;
    }
  }

  /** The names of the streets of an instance. */
  function NameSet(streets: seq<StreetInfo>): set<string>
  {
    if streets == [] then {} else NameSet(streets[..|streets| - 1]) + {streets[|streets| - 1].name}
  }

  lemma {:induction false} NameSetMembers(streets: seq<StreetInfo>, s: StreetInfo)
    requires s in streets
    ensures s.name in NameSet(streets)
  {
    var init := streets[..|streets| - 1];
    if s != streets[|streets| - 1] {
      assert streets == init + [streets[|streets| - 1]];
      NameSetMembers(init, s);
    }
  }

  /** The street line that `s_dict[name]` ends up built from: the last one with that
      name, since a later assignment to the same key replaces the earlier object. */
  function LastNamed(streets: seq<StreetInfo>, name: string): (r: StreetInfo)
    requires name in NameSet(streets)
    ensures r in streets && r.name == name
  {
    var last := streets[|streets| - 1];
    if last.name == name then last else LastNamed(streets[..|streets| - 1], name)
  }

  /** Distinct names lead to distinct objects, so updating one street's fields through
      the table leaves every other entry as it was. */
  predicate Injective(dict: map<string, Street>)
  {
    forall k1, k2 :: k1 in dict && k2 in dict && k1 != k2 ==> dict[k1] != dict[k2]
  }

  /** The loop building `s_dict`: one fresh `Street` per name, the last line with a
      given name winning, every tally and score still zero. */
  method BuildStreetDict(streetInfo: seq<StreetInfo>) returns (dict: map<string, Street>)
    ensures dict.Keys == NameSet(streetInfo)
    ensures forall k :: k in dict ==> fresh(dict[k])
    ensures forall k :: k in dict ==> dict[k].Info() == LastNamed(streetInfo, k)
    ensures forall k :: k in dict ==> dict[k].score == 0.0 && dict[k].carsUsing == 0
    ensures Injective(dict)
  {
    dict := map[];
    for j := 0 to |streetInfo|
      invariant dict.Keys == NameSet(streetInfo[..j])
      invariant forall k :: k in dict ==> fresh(dict[k])
      invariant forall k :: k in dict ==> dict[k].Info() == LastNamed(streetInfo[..j], k)
      invariant forall k :: k in dict ==> dict[k].score == 0.0 && dict[k].carsUsing == 0
      invariant Injective(dict)
    {
      assert streetInfo[..j + 1][..j] == streetInfo[..j];
      var s := new Street(streetInfo[j]);
      dict := dict[streetInfo[j].name := s];
    }
    assert streetInfo[..|streetInfo|] == streetInfo;
  }

  /** Every name on `path` is one of `names`. */
  predicate PathKnown(path: seq<string>, names: set<string>)
  {
    forall b :: 0 <= b < |path| ==> path[b] in names
  }

  /** Every name on every car path is one of `names`. */
  predicate KnownPaths(cars: seq<Car>, names: set<string>)
  {
    forall a :: 0 <= a < |cars| ==> PathKnown(cars[a].path, names)
  }

  /** The inner tally loop over one car's path. */
  method TallyPath(dict: map<string, Street>, path: seq<string>) returns (st: Status)
    requires Injective(dict)
    modifies dict.Values
    ensures st == Done <==> PathKnown(path, dict.Keys)
    ensures st != Done ==> st == Raised(UnknownStreet)
    ensures st == Done ==> forall k :: k in dict ==> dict[k].carsUsing == old(dict[k].carsUsing) + multiset(path)[k]
    ensures forall k :: k in dict ==> dict[k].score == old(dict[k].score)
  {
    for j := 0 to |path|
      invariant forall b :: 0 <= b < j ==> path[b] in dict
      invariant forall k :: k in dict ==> dict[k].carsUsing == old(dict[k].carsUsing) + multiset(path[..j])[k]
      invariant forall k :: k in dict ==> dict[k].score == old(dict[k].score)
    {
      if path[j] !in dict {
        return Raised(UnknownStreet);
      }
      PrefixMultiset(path, j);
      CountCar(dict, path[j]);
    }
    assert path[..|path|] == path;
    st := Done;
  }

  /** `street_dict[street].cars_using += 1`: one more car on the street named `name`. */
  method CountCar(dict: map<string, Street>, name: string)
    requires Injective(dict) && name in dict
    modifies dict[name]
    ensures forall k :: k in dict ==> dict[k].carsUsing == old(dict[k].carsUsing) + (if k == name then 1 else 0)
    ensures forall k :: k in dict ==> dict[k].score == old(dict[k].score)
  {
    dict[name].carsUsing := dict[name].carsUsing + 1;
  }

  lemma PrefixMultiset(path: seq<string>, j: nat)
    requires j < |path|
    ensures multiset(path[..j + 1]) == multiset(path[..j]) + multiset{path[j]}
  {
    assert path[..j + 1] == path[..j] + [path[j]];
  }

  /** The tally loop: each occurrence of a name on a path adds one to that street's
      `cars_using`. A name missing from the table raises, as the dictionary lookup does. */
  method TallyCars(dict: map<string, Street>, cars: seq<Car>) returns (st: Status)
    requires Injective(dict)
    modifies dict.Values
    ensures st == Done <==> KnownPaths(cars, dict.Keys)
    ensures st != Done ==> st == Raised(UnknownStreet)
    ensures st == Done ==> forall k :: k in dict ==> dict[k].carsUsing == old(dict[k].carsUsing) + Uses(cars, k)
    ensures forall k :: k in dict ==> dict[k].score == old(dict[k].score)
  {
    for i := 0 to |cars|
      invariant KnownPaths(cars[..i], dict.Keys)
      invariant forall k :: k in dict ==> dict[k].carsUsing == old(dict[k].carsUsing) + Uses(cars[..i], k)
      invariant forall k :: k in dict ==> dict[k].score == old(dict[k].score)
    {
      var pathSt := TallyPath(dict, cars[i].path);
      if pathSt != Done {
        KnownPathsFail(cars, i, dict.Keys);
        return pathSt;
      }
      TallySnoc(cars, i, dict.Keys);
    }
    assert cars[..|cars|] == cars;
    st := Done;
  }

  /** One more car of the tally: its path is known and its names are counted. */
  lemma TallySnoc(cars: seq<Car>, i: nat, names: set<string>)
    requires i < |cars| && KnownPaths(cars[..i], names) && PathKnown(cars[i].path, names)
    ensures KnownPaths(cars[..i + 1], names)
    ensures forall k :: Uses(cars[..i + 1], k) == Uses(cars[..i], k) + multiset(cars[i].path)[k]
  {
    assert cars[..i + 1][..i] == cars[..i];
    assert forall a :: 0 <= a < i ==> cars[..i + 1][a] == cars[..i][a];
  }

  lemma KnownPathsFail(cars: seq<Car>, i: nat, names: set<string>)
    requires i < |cars| && !PathKnown(cars[i].path, names)
    ensures !KnownPaths(cars, names)
  {
  }

  /** The pass calling `calc_score` on every street of the table; only scores change. */
  method ScoreStreets(dict: map<string, Street>, a: real, b: real)
    requires forall k :: k in dict ==> dict[k].length != 0
    modifies dict.Values
    ensures forall k :: k in dict ==> dict[k].carsUsing == old(dict[k].carsUsing)
    ensures forall k :: k in dict ==> dict[k].score == Utility(dict[k].length, dict[k].carsUsing, a, b)
  {
    var remaining := dict.Keys;
    while remaining != {}
      invariant remaining <= dict.Keys
      invariant forall k :: k in dict ==> dict[k].carsUsing == old(dict[k].carsUsing)
      invariant forall k :: k in dict && k !in remaining ==>
        dict[k].score == Utility(dict[k].length, dict[k].carsUsing, a, b)
      decreases remaining
    {
      var k :| k in remaining;
      dict[k].CalcScore(a, b);
      remaining := remaining - {k};
    }
  }

  /** The scores the table holds for `streets`, in order. */
  function ScoresOf(streets: seq<StreetInfo>, dict: map<string, Street>): (r: seq<real>)
    requires forall k :: 0 <= k < |streets| ==> streets[k].name in dict
    reads dict.Values
    ensures |r| == |streets|
  {
    if streets == [] then []
    else ScoresOf(streets[..|streets| - 1], dict) + [dict[streets[|streets| - 1].name].score]
  }

  lemma {:induction false} ScoresOfAt(streets: seq<StreetInfo>, dict: map<string, Street>, k: nat)
    requires forall k :: 0 <= k < |streets| ==> streets[k].name in dict
    requires k < |streets|
    ensures ScoresOf(streets, dict)[k] == dict[streets[k].name].score
  {
    if k < |streets| - 1 {
      ScoresOfAt(streets[..|streets| - 1], dict, k);
    }
  }

  /** Scores looked up one by one, in order, are the table's scores for `streets`. */
  lemma ScoresOfIs(streets: seq<StreetInfo>, dict: map<string, Street>, scores: seq<real>)
    requires |scores| == |streets|
    requires forall k :: 0 <= k < |streets| ==> streets[k].name in dict && scores[k] == dict[streets[k].name].score
    ensures scores == ScoresOf(streets, dict)
  {
    forall k | 0 <= k < |streets|
      ensures scores[k] == ScoresOf(streets, dict)[k]
    {
      ScoresOfAt(streets, dict, k);
    }
  }

  lemma ScoresOfPositive(streets: seq<StreetInfo>, dict: map<string, Street>)
    requires forall k :: 0 <= k < |streets| ==> streets[k].name in dict
    requires forall k :: k in dict ==> dict[k].score > 0.0
    ensures forall k :: 0 <= k < |streets| ==> ScoresOf(streets, dict)[k] > 0.0
  {
    forall k | 0 <= k < |streets|
      ensures ScoresOf(streets, dict)[k] > 0.0
    {
      ScoresOfAt(streets, dict, k);
    }
  }

  /** The `best_times` an intersection with these street scores ends up with: empty in
      the degenerate branch (`min(n, D) == D`, or no streets at all), otherwise the
      rounded ratios. */
  function TimesFor(scores: seq<real>, D: int): seq<int>
    requires forall k :: 0 <= k < |scores| ==> scores[k] > 0.0
  {
    if Min(|scores|, D) == D || scores == [] then []
    else
      WeightsPositive(scores);
      StreetTimes(Weights(scores), D)
  }

  class Intersection {
    const id: int
    var numStreets: int
    var bestTimes: seq<int>
    var D: int
    var streets: seq<StreetInfo>
    var maxLights: int
    var streetWeights: seq<real>

    /** The Python constructor sets only the id, the street count, the times and `D`;
        `streets`, `maxLights` and `streetWeights` start empty here because Dafny fields
        need a value, and every caller runs `FindStreetsAtIntersection` first. */
    constructor (id: int)
      ensures this.id == id && numStreets == 0 && bestTimes == [] && D == 0
      ensures streets == [] && maxLights == 0 && streetWeights == []
    {
      this.id := id;
      numStreets, bestTimes, D := 0, [], 0;
      streets, maxLights, streetWeights := [], 0, [];
    }

    /** `find_streets_at_intersection`: the streets ending here, in input order, their
        count, and at most `min(count, D)` lights. */
    method FindStreetsAtIntersection(streetInfo: seq<StreetInfo>, duration: int)
      modifies this`streets, this`numStreets, this`maxLights, this`D
      ensures streets == EndingAt(streetInfo, id)
      ensures numStreets == |streets| && maxLights == Min(numStreets, duration) && D == duration
    {
      var starting := StreetsEndingAt(streetInfo, id);
      streets := starting;
      numStreets := |starting|;
      maxLights := Min(numStreets, duration);
      D := duration;
    }

    /** `weight_streets`: the scores of this intersection's streets, looked up by name
        and divided by their total. A name missing from the table raises. */
    method WeightStreets(dict: map<string, Street>) returns (st: Status)
      requires numStreets == |streets|
      requires forall k :: k in dict ==> dict[k].score > 0.0
      modifies this`streetWeights
      ensures st == Done <==> forall k :: 0 <= k < |streets| ==> streets[k].name in dict
      ensures st != Done ==> st == Raised(UnknownStreet) && streetWeights == old(streetWeights)
      ensures st == Done ==> streets == [] || Total(ScoresOf(streets, dict)) > 0.0
      ensures st == Done ==> streetWeights == Weights(ScoresOf(streets, dict))
      ensures st == Done ==> forall k :: 0 <= k < |streetWeights| ==> streetWeights[k] > 0.0
    {
      var scores := seq(numStreets, _ => 0.0);
      for i := 0 to |streets|
        invariant |scores| == |streets|
        invariant forall k :: 0 <= k < i ==> streets[k].name in dict && scores[k] == dict[streets[k].name].score
      {
        if streets[i].name !in dict {
          return Raised(UnknownStreet);
        }
        scores := scores[i := dict[streets[i].name].score];
      }
      ScoresOfIs(streets, dict, scores);
      if scores != [] {
        WeightsPositive(scores);
      }
      streetWeights := Weights(scores);
      st := Done;
    }

    /** `find_street_times`. With `min(n, D) == D` it returns a list of ones that its
        caller drops, so `best_times` keeps its old value; with no streets and a
        positive duration it divides by zero; otherwise it sets the rounded ratios. */
    method FindStreetTimes() returns (st: Status)
      requires |streetWeights| == numStreets && maxLights == Min(numStreets, D)
      requires forall k :: 0 <= k < |streetWeights| ==> streetWeights[k] > 0.0
      modifies this`bestTimes
      ensures st == Done <==> !(D > 0 && numStreets == 0)
      ensures maxLights == D ==> st == Done && bestTimes == old(bestTimes)
      ensures maxLights != D && numStreets == 0 ==> st == Raised(DivisionByZero) && bestTimes == old(bestTimes)
      ensures maxLights != D && numStreets != 0 ==> st == Done && bestTimes == StreetTimes(streetWeights, D)
    {
      if maxLights == D {
        return Done;
      }
      if numStreets == 0 {
        return Raised(DivisionByZero);
      }
      bestTimes := StreetTimes(streetWeights, D);
      st := Done;
    }

    /** `weight_streets` followed by `find_street_times` on an intersection whose
        `best_times` is still empty; `scores` are the table's scores of its streets. */
    method Schedule(dict: map<string, Street>, ghost scores: seq<real>) returns (st: Status)
      requires numStreets == |streets| && maxLights == Min(numStreets, D) && bestTimes == []
      requires NamesIn(streets, dict) && ScoredTable(dict) && scores == ScoresOf(streets, dict)
      requires forall k :: 0 <= k < |scores| ==> scores[k] > 0.0
      modifies this`streetWeights, this`bestTimes
      ensures st == Done <==> !(D > 0 && streets == [])
      ensures st != Done ==> st == Raised(DivisionByZero)
      ensures st == Done ==> (TimesForCases(scores, D); bestTimes == TimesFor(scores, D))
    {
      TimesForCases(scores, D);
      var weighed := WeightStreets(dict);
      assert streetWeights == Weights(scores);
      st := FindStreetTimes();
    }
  }

  /** The body of `objective`'s loop for one intersection: `[id, len(best_times)]`
      followed by the `(name, time)` pairs in the order of the stable descending sort. */
  method BuildRecord(inter: Intersection) returns (rec: Record)
    ensures rec == ScheduleRecord(inter.id, inter.streets, inter.bestTimes)
  {
    var times := inter.bestTimes;
    var names := Names(inter.streets);
    var order := ScheduleOrder(times[..Min(|names|, |times|)]);
    var lights: seq<Light> := [];
    for k := 0 to |order|
      invariant |lights| == k
      invariant forall m :: 0 <= m < k ==> lights[m] == Light(names[order[m]], times[order[m]])
    {
      lights := lights + [Light(names[order[k]], times[order[k]])];
    }
    rec := Record(inter.id, |times|, lights);
  }

  /** `objective`: one record per intersection, in list order, and score 0. */
  method Objective(interList: seq<Intersection>) returns (solution: seq<Record>, score: int)
    ensures |solution| == |interList|
    ensures forall k :: 0 <= k < |interList| ==>
      solution[k] == ScheduleRecord(interList[k].id, interList[k].streets, interList[k].bestTimes)
    ensures score == 0
  {
    solution := [];
    for k := 0 to |interList|
      invariant |solution| == k
      invariant forall m :: 0 <= m < k ==>
        solution[m] == ScheduleRecord(interList[m].id, interList[m].streets, interList[m].bestTimes)
    {
      var rec := BuildRecord(interList[k]);
      solution := solution + [rec];
    }
    score := 0;
  }

  /** What `sean_solution` returns: its records and its score. */
  datatype Solution = Solution(records: seq<Record>, score: int)

  predicate PositiveLengths(streetInfo: seq<StreetInfo>)
  {
    forall s :: s in streetInfo ==> s.length > 0
  }

  /** The score the table holds for `name` once the tally and scoring are done. */
  function SpecScore(streetInfo: seq<StreetInfo>, cars: seq<Car>, name: string): real
    requires PositiveLengths(streetInfo) && name in NameSet(streetInfo)
  {
    Utility(LastNamed(streetInfo, name).length, Uses(cars, name), LengthWeight, TrafficWeight)
  }

  /** Every street scores positively: its length is positive and so are the weights. */
  lemma SpecScorePositive(streetInfo: seq<StreetInfo>, cars: seq<Car>, name: string)
    requires PositiveLengths(streetInfo) && name in NameSet(streetInfo)
    ensures SpecScore(streetInfo, cars, name) > 0.0
  {
    UtilityPositive(LastNamed(streetInfo, name).length, Uses(cars, name), LengthWeight, TrafficWeight);
  }

  /** The streets entering `i`, all of them named in the table. */
  lemma EnteringNamesKnown(streetInfo: seq<StreetInfo>, i: int)
    ensures forall k :: 0 <= k < |EndingAt(streetInfo, i)| ==> EndingAt(streetInfo, i)[k].name in NameSet(streetInfo)
  {
    var starting := EndingAt(streetInfo, i);
    forall k | 0 <= k < |starting|
      ensures starting[k].name in NameSet(streetInfo)
    {
      EndingAtMembers(streetInfo, i, starting[k]);
      NameSetMembers(streetInfo, starting[k]);
    }
  }

  /** The scores of the streets entering `i`, in input order. */
  function EnteringScores(streetInfo: seq<StreetInfo>, cars: seq<Car>, i: int): (r: seq<real>)
    requires PositiveLengths(streetInfo)
    ensures |r| == |EndingAt(streetInfo, i)|
  {
    var starting := EndingAt(streetInfo, i);
    EnteringNamesKnown(streetInfo, i);
    seq(|starting|, k requires 0 <= k < |starting| => SpecScore(streetInfo, cars, starting[k].name))
  }

  lemma EnteringScoresPositive(streetInfo: seq<StreetInfo>, cars: seq<Car>, i: int)
    requires PositiveLengths(streetInfo)
    ensures forall k :: 0 <= k < |EnteringScores(streetInfo, cars, i)| ==> EnteringScores(streetInfo, cars, i)[k] > 0.0
  {
    var starting := EndingAt(streetInfo, i);
    EnteringNamesKnown(streetInfo, i);
    forall k | 0 <= k < |starting|
      ensures EnteringScores(streetInfo, cars, i)[k] > 0.0
    {
      SpecScorePositive(streetInfo, cars, starting[k].name);
    }
  }

  /** An intersection's `best_times` at the end of `sean_solution`. */
  function SeanTimes(streetInfo: seq<StreetInfo>, cars: seq<Car>, D: int, i: int): seq<int>
    requires PositiveLengths(streetInfo)
  {
    EnteringScoresPositive(streetInfo, cars, i);
    TimesFor(EnteringScores(streetInfo, cars, i), D)
  }

  /** The record `objective` emits for intersection `i`. */
  function SeanRecord(streetInfo: seq<StreetInfo>, cars: seq<Car>, D: int, i: int): Record
    requires PositiveLengths(streetInfo)
  {
    ScheduleRecord(i, EndingAt(streetInfo, i), SeanTimes(streetInfo, cars, D, i))
  }

  /** Every intersection below `I` has an incoming street. */
  predicate AllEntered(streetInfo: seq<StreetInfo>, I: nat)
  {
    forall i :: 0 <= i < I ==> EndingAt(streetInfo, i) != []
  }

  lemma AllEnteredSnoc(streetInfo: seq<StreetInfo>, i: nat)
    requires AllEntered(streetInfo, i) && EndingAt(streetInfo, i) != []
    ensures AllEntered(streetInfo, i + 1)
  {
  }

  lemma NotAllEntered(streetInfo: seq<StreetInfo>, i: nat, I: nat)
    requires i < I && EndingAt(streetInfo, i) == []
    ensures !AllEntered(streetInfo, I)
  {
  }

  /** What `sean_solution` does on an instance: a path naming an unknown street raises
      during the tally; otherwise an intersection with no incoming street raises when
      `D > 0`; otherwise one record per intersection id, in id order, with score 0. */
  function SeanOutcome(D: int, I: nat, streetInfo: seq<StreetInfo>, cars: seq<Car>): Outcome<Solution>
    requires PositiveLengths(streetInfo)
  {
    if !KnownPaths(cars, NameSet(streetInfo)) then Fail(UnknownStreet)
    else if D > 0 && !AllEntered(streetInfo, I) then Fail(DivisionByZero)
    else Ok(Solution(seq(I, i requires 0 <= i < I => SeanRecord(streetInfo, cars, D, i)), 0))
  }

  /** The scores the table holds, once scored, are the specified ones. */
  lemma ScoresOfIsSpec(streetInfo: seq<StreetInfo>, cars: seq<Car>, dict: map<string, Street>, i: int)
    requires PositiveLengths(streetInfo) && dict.Keys == NameSet(streetInfo)
    requires forall k :: k in dict ==> dict[k].score == SpecScore(streetInfo, cars, k)
    ensures forall k :: 0 <= k < |EndingAt(streetInfo, i)| ==> EndingAt(streetInfo, i)[k].name in dict
    ensures ScoresOf(EndingAt(streetInfo, i), dict) == EnteringScores(streetInfo, cars, i)
  {
    var starting := EndingAt(streetInfo, i);
    EnteringNamesKnown(streetInfo, i);
    forall k | 0 <= k < |starting|
      ensures ScoresOf(starting, dict)[k] == EnteringScores(streetInfo, cars, i)[k]
    {
      ScoresOfAt(starting, dict, k);
    }
  }

  /** Every street of `streets` has an entry in the table. */
  predicate NamesIn(streets: seq<StreetInfo>, dict: map<string, Street>)
  {
    forall k :: 0 <= k < |streets| ==> streets[k].name in dict
  }

  /** Every street of the table scores positively. */
  predicate ScoredTable(dict: map<string, Street>)
    reads dict.Values
  {
    forall k :: k in dict ==> dict[k].score > 0.0
  }

  /** The `best_times` an intersection entered by `streets` gets from the table. */
  function TableTimes(streets: seq<StreetInfo>, dict: map<string, Street>, D: int): seq<int>
    requires NamesIn(streets, dict) && ScoredTable(dict)
    reads dict.Values
  {
    ScoresOfPositive(streets, dict);
    TimesFor(ScoresOf(streets, dict), D)
  }

  /** The steps for one intersection id: build it, weight its streets, set its times. */
  method ProcessIntersection(i: int, D: int, streetInfo: seq<StreetInfo>, dict: map<string, Street>)
    returns (inter: Intersection, st: Status)
    requires NamesIn(EndingAt(streetInfo, i), dict) && ScoredTable(dict)
    ensures st == Done <==> !(D > 0 && EndingAt(streetInfo, i) == [])
    ensures st != Done ==> st == Raised(DivisionByZero)
    ensures inter.id == i && inter.streets == EndingAt(streetInfo, i)
    ensures st == Done ==> inter.bestTimes == TableTimes(EndingAt(streetInfo, i), dict, D)
  {
    ghost var scores := ScoresOf(EndingAt(streetInfo, i), dict);
    ScoresOfPositive(EndingAt(streetInfo, i), dict);
    inter := OpenIntersection(i, D, streetInfo);
    st := inter.Schedule(dict, scores);
  }

  /** `Intersection(i)` followed by `find_streets_at_intersection`. */
  method OpenIntersection(i: int, D: int, streetInfo: seq<StreetInfo>) returns (inter: Intersection)
    ensures fresh(inter)
    ensures inter.id == i && inter.streets == EndingAt(streetInfo, i) && inter.D == D
    ensures inter.numStreets == |inter.streets| && inter.maxLights == Min(inter.numStreets, D)
    ensures inter.bestTimes == []
  {
    inter := new Intersection(i);
    inter.FindStreetsAtIntersection(streetInfo, D);
  }

  /** The two branches of `TimesFor`, as `find_street_times` takes them. */
  lemma TimesForCases(scores: seq<real>, D: int)
    requires forall k :: 0 <= k < |scores| ==> scores[k] > 0.0
    ensures scores != [] ==> Total(scores) > 0.0 && forall k :: 0 <= k < |scores| ==> Weights(scores)[k] > 0.0
    ensures Min(|scores|, D) == D ==> TimesFor(scores, D) == []
    ensures Min(|scores|, D) != D && scores != [] ==> TimesFor(scores, D) == StreetTimes(Weights(scores), D)
  {
    if scores != [] {
      WeightsPositive(scores);
    }
  }

  /** The loop over `range(I)` building the intersection list. */
  method BuildIntersections(I: nat, D: int, streetInfo: seq<StreetInfo>, dict: map<string, Street>)
    returns (interList: seq<Intersection>, st: Status)
    requires forall i :: NamesIn(EndingAt(streetInfo, i), dict)
    requires ScoredTable(dict)
    ensures st == Done <==> D <= 0 || AllEntered(streetInfo, I)
    ensures st != Done ==> st == Raised(DivisionByZero)
    ensures st == Done ==> |interList| == I
    ensures st == Done ==> forall k :: 0 <= k < I ==>
      interList[k].id == k && interList[k].streets == EndingAt(streetInfo, k)
      && interList[k].bestTimes == TableTimes(EndingAt(streetInfo, k), dict, D)
  {
    interList := [];
    for i := 0 to I
      invariant |interList| == i
      invariant D <= 0 || AllEntered(streetInfo, i)
      invariant forall k :: 0 <= k < i ==>
        interList[k].id == k && interList[k].streets == EndingAt(streetInfo, k)
        && interList[k].bestTimes == TableTimes(EndingAt(streetInfo, k), dict, D)
    {
      var inter, interSt := ProcessIntersection(i, D, streetInfo, dict);
      if interSt != Done {
        NotAllEntered(streetInfo, i, I);
        return interList, interSt;
      }
      if D > 0 {
        AllEnteredSnoc(streetInfo, i);
      }
      BuiltSnoc(interList, inter, D, streetInfo, dict);
      interList := interList + [inter];
    }
    st := Done;
  }

  lemma BuiltSnoc(interList: seq<Intersection>, inter: Intersection, D: int, streetInfo: seq<StreetInfo>,
                  dict: map<string, Street>)
    requires forall i :: NamesIn(EndingAt(streetInfo, i), dict)
    requires ScoredTable(dict)
    requires forall k :: 0 <= k < |interList| ==>
      interList[k].id == k && interList[k].streets == EndingAt(streetInfo, k)
      && interList[k].bestTimes == TableTimes(EndingAt(streetInfo, k), dict, D)
    requires inter.id == |interList| && inter.streets == EndingAt(streetInfo, |interList|)
    requires inter.bestTimes == TableTimes(EndingAt(streetInfo, |interList|), dict, D)
    ensures var all := interList + [inter];
      forall k :: 0 <= k < |all| ==>
        all[k].id == k && all[k].streets == EndingAt(streetInfo, k)
        && all[k].bestTimes == TableTimes(EndingAt(streetInfo, k), dict, D)
  {
    var all := interList + [inter];
    forall k | 0 <= k < |all|
      ensures all[k].id == k && all[k].streets == EndingAt(streetInfo, k)
      ensures all[k].bestTimes == TableTimes(EndingAt(streetInfo, k), dict, D)
    {
      if k < |interList| {
        assert all[k] == interList[k];
      }
    }
  }

  /** `sean_solution` with hyper-parameter search off: the table, the tally, the
      scores, the intersections and the records, ending as `SeanOutcome` says. */
  method SeanSolution(D: int, I: nat, streetInfo: seq<StreetInfo>, cars: seq<Car>) returns (result: Outcome<Solution>)
    requires PositiveLengths(streetInfo)
    ensures result == SeanOutcome(D, I, streetInfo, cars)
  {
    var dict, tally := ScoredStreetDict(streetInfo, cars);
    if tally != Done {
      return Fail(UnknownStreet);
    }
    SpecTableFacts(streetInfo, cars, dict);
    var interList, built := BuildIntersections(I, D, streetInfo, dict);
    if built != Done {
      return Fail(DivisionByZero);
    }
    forall i | 0 <= i < I
      ensures interList[i].bestTimes == SeanTimes(streetInfo, cars, D, i)
    {
      ScoresOfIsSpec(streetInfo, cars, dict, i);
    }
    var records, score := Objective(interList);
    assert records == seq(I, i requires 0 <= i < I => SeanRecord(streetInfo, cars, D, i));
    result := Ok(Solution(records, score));
  }

  /** The first half of `sean_solution`: the street table, the tally of the car paths
      and `calc_score` on every street. Once the tally succeeds, every street of the
      table holds its specified score. */
  method ScoredStreetDict(streetInfo: seq<StreetInfo>, cars: seq<Car>) returns (dict: map<string, Street>, tally: Status)
    requires PositiveLengths(streetInfo)
    ensures tally == Done <==> KnownPaths(cars, NameSet(streetInfo))
    ensures tally == Done ==> dict.Keys == NameSet(streetInfo)
    ensures tally == Done ==> forall k :: k in dict ==> dict[k].score == SpecScore(streetInfo, cars, k)
  {
    dict := BuildStreetDict(streetInfo);
    tally := TallyCars(dict, cars);
    if tally != Done {
      return;
    }
    forall k | k in dict
      ensures dict[k].length > 0
    {
      assert dict[k].Info() == LastNamed(streetInfo, k);
    }
    ScoreStreets(dict, LengthWeight, TrafficWeight);
    assert forall k :: k in dict ==> dict[k].score == SpecScore(streetInfo, cars, k);
  }

  /** A table holding the specified scores scores every street positively and knows
      every street entering every intersection. */
  lemma SpecTableFacts(streetInfo: seq<StreetInfo>, cars: seq<Car>, dict: map<string, Street>)
    requires PositiveLengths(streetInfo) && dict.Keys == NameSet(streetInfo)
    requires forall k :: k in dict ==> dict[k].score == SpecScore(streetInfo, cars, k)
    ensures ScoredTable(dict)
    ensures forall i :: NamesIn(EndingAt(streetInfo, i), dict)
  {
    forall k | k in dict
      ensures dict[k].score > 0.0
    {
      SpecScorePositive(streetInfo, cars, k);
    }
    forall i
      ensures NamesIn(EndingAt(streetInfo, i), dict)
    {
      EnteringNamesKnown(streetInfo, i);
    }
  }

  /** An intersection in the degenerate branch (at least `D` incoming streets) gets
      the record `[id, 0]` with no pairs: its `best_times` is never assigned. */
  lemma SeanRecordDegenerate(streetInfo: seq<StreetInfo>, cars: seq<Car>, D: int, i: int)
    requires PositiveLengths(streetInfo) && D <= |EndingAt(streetInfo, i)|
    ensures SeanRecord(streetInfo, cars, D, i) == Record(i, 0, [])
  {
    EmptyScheduleRecord(i, EndingAt(streetInfo, i));
  }

  /** With fewer streets than `D`, the `D / n` factor cancels: each street's green time
      is its score over the least score, rounded; each is at least 1, a least-scored
      street gets exactly 1, and a higher score never gets a shorter time. */
  lemma SeanTimesNormalised(streetInfo: seq<StreetInfo>, cars: seq<Car>, D: int, i: int)
    requires PositiveLengths(streetInfo) && 0 < |EndingAt(streetInfo, i)| < D
    ensures |SeanTimes(streetInfo, cars, D, i)| == |EndingAt(streetInfo, i)|
    ensures MinOf(EnteringScores(streetInfo, cars, i)) > 0.0
    ensures var scores, times := EnteringScores(streetInfo, cars, i), SeanTimes(streetInfo, cars, D, i);
      forall k :: 0 <= k < |scores| ==> times[k] == RoundHalfEven(scores[k] / MinOf(scores))
    ensures var times := SeanTimes(streetInfo, cars, D, i);
      forall k :: 0 <= k < |times| ==> times[k] >= 1
    ensures var scores, times := EnteringScores(streetInfo, cars, i), SeanTimes(streetInfo, cars, D, i);
      forall k :: 0 <= k < |scores| && scores[k] == MinOf(scores) ==> times[k] == 1
    ensures var scores, times := EnteringScores(streetInfo, cars, i), SeanTimes(streetInfo, cars, D, i);
      forall j, k :: 0 <= j < |scores| && 0 <= k < |scores| && scores[j] <= scores[k] ==> times[j] <= times[k]
  {
    var scores := EnteringScores(streetInfo, cars, i);
    EnteringScoresPositive(streetInfo, cars, i);
    MinOfPositive(scores);
    StreetTimesAreRatios(scores, D);
    StreetTimesNormalised(scores, D);
    assert SeanTimes(streetInfo, cars, D, i) == StreetTimes(Weights(scores), D);
  }

  /** With fewer streets than `D`, the record declares one light per incoming street
      and lists every incoming street once, longest green first, streets with equal
      times in input order. */
  lemma SeanRecordOrdered(streetInfo: seq<StreetInfo>, cars: seq<Car>, D: int, i: int)
    requires PositiveLengths(streetInfo) && 0 < |EndingAt(streetInfo, i)| < D
    ensures SeanRecord(streetInfo, cars, D, i).id == i
    ensures SeanRecord(streetInfo, cars, D, i).count == |EndingAt(streetInfo, i)|
    ensures |SeanRecord(streetInfo, cars, D, i).lights| == |EndingAt(streetInfo, i)|
    ensures |ScheduleOrder(SeanTimes(streetInfo, cars, D, i))| == |EndingAt(streetInfo, i)|
    ensures forall k :: 0 <= k < |EndingAt(streetInfo, i)| ==> k in ScheduleOrder(SeanTimes(streetInfo, cars, D, i))
    ensures forall k :: 0 <= k < |EndingAt(streetInfo, i)| ==>
      var j := ScheduleOrder(SeanTimes(streetInfo, cars, D, i))[k];
      SeanRecord(streetInfo, cars, D, i).lights[k]
        == Light(EndingAt(streetInfo, i)[j].name, SeanTimes(streetInfo, cars, D, i)[j])
    ensures forall a, b :: 0 <= a < b < |EndingAt(streetInfo, i)| ==>
      SeanRecord(streetInfo, cars, D, i).lights[a].time >= SeanRecord(streetInfo, cars, D, i).lights[b].time
    ensures forall k :: 0 <= k < |EndingAt(streetInfo, i)| ==> SeanRecord(streetInfo, cars, D, i).lights[k].time >= 1
  {
    SeanTimesNormalised(streetInfo, cars, D, i);
    var times := SeanTimes(streetInfo, cars, D, i);
    ScheduleRecordOrdered(i, EndingAt(streetInfo, i), times);
    ScheduleOrderSorted(times);
  }
}
