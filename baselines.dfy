/** The two baseline schedulers (`dumb_solution` in common.py and `matheus_solution`
    in matheus.py): every intersection with an incoming street gets a record listing
    those streets with a green time of 1. Both list the street at position `j` only
    when `j <= D`, so up to `D + 1` streets, while `dumb_solution` declares `min(n, D)`
    of them and `matheus_solution` always declares 1. */
module Baselines {
  import opened Basics
  import opened Traffic

  /** How many streets a baseline lists when `n` streets enter and the duration is `D`. */
  function ListedCount(n: nat, D: int): (m: nat)
    ensures m <= n
  {
    if D < 0 then 0 else Min(n, D + 1)
  }

  /** The lights a baseline lists for the streets `starting`: the first
      `ListedCount(|starting|, D)` of them, each green for 1. */
  function UnitLights(starting: seq<StreetInfo>, D: int): seq<Light>
  {
    seq(ListedCount(|starting|, D), k requires 0 <= k < ListedCount(|starting|, D) => Light(starting[k].name, 1))
  }

  /** The intersections a baseline schedules: those below `I` with an incoming street. */
  function ScheduledIds(streets: seq<StreetInfo>, I: nat): (ids: seq<nat>)
    ensures forall k :: 0 <= k < |ids| ==> ids[k] < I
    ensures forall a, b :: 0 <= a < b < |ids| ==> ids[a] < ids[b]
  {
    if I == 0 then []
    else if EndingAt(streets, I - 1) != [] then ScheduledIds(streets, I - 1) + [I - 1]
    else ScheduledIds(streets, I - 1)
  }

  /** An intersection is scheduled exactly when it is below `I` and a street enters it. */
  lemma {:induction false} ScheduledIdsMembers(streets: seq<StreetInfo>, I: nat, i: int)
    ensures i in ScheduledIds(streets, I) <==> 0 <= i < I && EndingAt(streets, i) != []
  {
    if I > 0 {
      ScheduledIdsMembers(streets, I - 1, i);
    }
  }

  /** The record `dumb_solution` emits for intersection `i`. */
  function DumbRecord(streets: seq<StreetInfo>, D: int, i: int): Record
  {
    var starting := EndingAt(streets, i);
    Record(i, Min(|starting|, D), UnitLights(starting, D))
  }

  /** The record `matheus_solution` emits for intersection `i`. */
  function MatheusRecord(streets: seq<StreetInfo>, D: int, i: int): Record
  {
    Record(i, 1, UnitLights(EndingAt(streets, i), D))
  }

  /** The records `dumb_solution` emits for the intersections below `I`. */
  function DumbSchedule(streets: seq<StreetInfo>, D: int, I: nat): seq<Record>
  {
    if I == 0 then []
    else if EndingAt(streets, I - 1) != [] then DumbSchedule(streets, D, I - 1) + [DumbRecord(streets, D, I - 1)]
    else DumbSchedule(streets, D, I - 1)
  }

  /** The records `matheus_solution` emits for the intersections below `I`. */
  function MatheusSchedule(streets: seq<StreetInfo>, D: int, I: nat): seq<Record>
  {
    if I == 0 then []
    else if EndingAt(streets, I - 1) != [] then MatheusSchedule(streets, D, I - 1) + [MatheusRecord(streets, D, I - 1)]
    else MatheusSchedule(streets, D, I - 1)
  }

  /** The inner loop over `range(num_streets)` that appends `(name, 1)` when `j <= D`. */
  method ListUnitLights(starting: seq<StreetInfo>, D: int) returns (lights: seq<Light>)
    ensures |lights| == ListedCount(|starting|, D)
    ensures forall k :: 0 <= k < |lights| ==> lights[k] == Light(starting[k].name, 1)
    ensures lights == UnitLights(starting, D)
  {
    lights := [];
    for j := 0 to |starting|
      invariant |lights| == ListedCount(j, D)
      invariant forall k :: 0 <= k < |lights| ==> lights[k] == Light(starting[k].name, 1)
    {
      if j <= D {
        lights := lights + [Light(starting[j].name, 1)];
      }
    }
    assert |lights| == |UnitLights(starting, D)|;
  }

  /** The score both baselines report, and `scorer`'s value on every input. */
  function Scorer(solution: seq<Record>, D: int, F: int): (score: int)
    ensures score == 0
  {
    0
  }

  /** `dumb_solution`: one record per intersection with an incoming street, in id order. */
  method DumbSolution(D: int, I: nat, streets: seq<StreetInfo>) returns (solution: seq<Record>, score: int)
    ensures |solution| == |ScheduledIds(streets, I)|
    ensures forall k :: 0 <= k < |solution| ==> solution[k] == DumbRecord(streets, D, ScheduledIds(streets, I)[k])
    ensures score == 0
  {
    solution := [];
    for i := 0 to I
      invariant solution == DumbSchedule(streets, D, i)
    {
      var starting := StreetsEndingAt(streets, i);
      var numStreets := |starting|;
      var numLights := Min(numStreets, D);
      if |starting| != 0 {
        var lights := ListUnitLights(starting, D);
        assert Record(i, numLights, lights) == DumbRecord(streets, D, i);
        solution := solution + [Record(i, numLights, lights)];
      }
    }
    DumbScheduleIds(streets, D, I);
    score := 0;
  }

  /** `matheus_solution`: as `dumb_solution`, but every record declares a count of 1. */
  method MatheusSolution(D: int, I: nat, streets: seq<StreetInfo>) returns (solution: seq<Record>, score: int)
    ensures |solution| == |ScheduledIds(streets, I)|
    ensures forall k :: 0 <= k < |solution| ==> solution[k] == MatheusRecord(streets, D, ScheduledIds(streets, I)[k])
    ensures score == 0
  {
    solution := [];
    for i := 0 to I
      invariant solution == MatheusSchedule(streets, D, i)
    {
      var starting := StreetsEndingAt(streets, i);
      if |starting| != 0 {
        var lights := ListUnitLights(starting, D);
        assert Record(i, 1, lights) == MatheusRecord(streets, D, i);
        solution := solution + [Record(i, 1, lights)];
      }
    }
    MatheusScheduleIds(streets, D, I);
    score := 0;
  }

  /** `dumb_solution`'s k-th record is the one for the k-th intersection that has an
      incoming street. */
  lemma {:induction false} DumbScheduleIds(streets: seq<StreetInfo>, D: int, I: nat)
    ensures |DumbSchedule(streets, D, I)| == |ScheduledIds(streets, I)|
    ensures forall k :: 0 <= k < |ScheduledIds(streets, I)| ==>
      DumbSchedule(streets, D, I)[k] == DumbRecord(streets, D, ScheduledIds(streets, I)[k])
  {
    if I > 0 {
      DumbScheduleIds(streets, D, I - 1);
      if EndingAt(streets, I - 1) != [] {
        var ids := ScheduledIds(streets, I - 1);
        var recs := DumbSchedule(streets, D, I - 1);
        var ids', recs' := ids + [I - 1], recs + [DumbRecord(streets, D, I - 1)];
        forall k | 0 <= k < |ids'|
          ensures recs'[k] == DumbRecord(streets, D, ids'[k])
        {
          if k < |ids| {
            assert ids'[k] == ids[k] && recs'[k] == recs[k];
          }
        }
      }
    }
  }

  /** `matheus_solution`'s k-th record is the one for the k-th intersection that has an
      incoming street. */
  lemma {:induction false} MatheusScheduleIds(streets: seq<StreetInfo>, D: int, I: nat)
    ensures |MatheusSchedule(streets, D, I)| == |ScheduledIds(streets, I)|
    ensures forall k :: 0 <= k < |ScheduledIds(streets, I)| ==>
      MatheusSchedule(streets, D, I)[k] == MatheusRecord(streets, D, ScheduledIds(streets, I)[k])
  {
    if I > 0 {
      MatheusScheduleIds(streets, D, I - 1);
      if EndingAt(streets, I - 1) != [] {
        var ids := ScheduledIds(streets, I - 1);
        var recs := MatheusSchedule(streets, D, I - 1);
        var ids', recs' := ids + [I - 1], recs + [MatheusRecord(streets, D, I - 1)];
        forall k | 0 <= k < |ids'|
          ensures recs'[k] == MatheusRecord(streets, D, ids'[k])
        {
          if k < |ids| {
            assert ids'[k] == ids[k] && recs'[k] == recs[k];
          }
        }
      }
    }
  }

  /** In a baseline record the listed lights are the first streets entering the
      intersection, in input order, each green for 1 — and there is at least one. */
  lemma UnitLightsShape(starting: seq<StreetInfo>, D: int, k: nat)
    requires starting != [] && D >= 0
    requires k < |UnitLights(starting, D)|
    ensures UnitLights(starting, D) != []
    ensures UnitLights(starting, D)[k] == Light(starting[k].name, 1)
  {
  }

  /** `dumb_solution` declares `min(n, D)` lights but lists `min(n, D + 1)`: whenever more
      than `D` streets enter, one more pair is listed than declared. */
  lemma DumbCountMismatch(streets: seq<StreetInfo>, D: nat, i: int)
    requires |EndingAt(streets, i)| > D
    ensures |DumbRecord(streets, D, i).lights| == DumbRecord(streets, D, i).count + 1
  {
  }

  /** When at most `D` streets enter, `dumb_solution`'s declared count is right. */
  lemma DumbCountAgrees(streets: seq<StreetInfo>, D: nat, i: int)
    requires |EndingAt(streets, i)| <= D
    ensures |DumbRecord(streets, D, i).lights| == DumbRecord(streets, D, i).count == |EndingAt(streets, i)|
  {
  }

  /** `matheus_solution` declares 1 however many pairs it lists, so the declaration is
      right exactly when one pair is listed. */
  lemma MatheusCountAgrees(streets: seq<StreetInfo>, D: nat, i: int)
    ensures |MatheusRecord(streets, D, i).lights| == MatheusRecord(streets, D, i).count
        <==> |EndingAt(streets, i)| == 1 || (D == 0 && EndingAt(streets, i) != [])
  {
  }
  /** The record `dumb_solution` evidently means to emit: as many unit lights as it
      declares, `min(n, D)`. */
  function IntendedDumbRecord(streets: seq<StreetInfo>, D: nat, i: int): (r: Record)
    ensures r.count == |r.lights| <= |EndingAt(streets, i)|
    ensures forall k :: 0 <= k < |r.lights| ==> r.lights[k] == Light(EndingAt(streets, i)[k].name, 1)
  {
    var starting := EndingAt(streets, i);
    var n := Min(|starting|, D);
    Record(i, n, seq(n, k requires 0 <= k < n => Light(starting[k].name, 1)))
  }

  /** The correction changes only records with more than `D` incoming streets, and there
      it drops exactly the one extra pair. */
  lemma IntendedDumbRecordDiffers(streets: seq<StreetInfo>, D: nat, i: int)
    ensures |EndingAt(streets, i)| <= D ==> IntendedDumbRecord(streets, D, i) == DumbRecord(streets, D, i)
    ensures |EndingAt(streets, i)| > D ==>
      IntendedDumbRecord(streets, D, i) == DumbRecord(streets, D, i).(lights := DumbRecord(streets, D, i).lights[..D])
  {
  }
}
