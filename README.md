# Hash Code 2021 heuristics in Dafny

This project models the heuristics a team wrote for two Google Hash Code 2021 problems,
and proves properties of those models.

**Traffic signalling (the qualification round).** A city has intersections joined by
one-way streets. Each car follows a path of street names. A solution gives some
intersections a schedule: the number of incoming streets it lists, then one
`(street name, green seconds)` pair per listed street. The project models four parts:

- `traffic.dfy`: the shared records, and the search for the streets that end at an
  intersection.
- `baselines.dfy`: the two baseline schedules, `dumb_solution` and `matheus_solution`,
  and the placeholder scorer.
- `green_times.dfy` and `allocator.dfy`: the traffic-weighted allocator.
  - A `Street` object counts the cars whose paths use it and scores itself.
  - An `Intersection` object turns the scores of its incoming streets into weights,
    then into rounded green times.
  - The objective lists each intersection's streets, longest green first.
- `writer.dfy`: the text the solution writer produces, a reader for that text, and the
  length check on the driver's arguments.

**Even more pizza (the practice round).** Pizzas, each a list of ingredients, are
delivered to teams of 2, 3 or 4 people. The project models two parts:

- `draw.dfy`: the draw-array planner (`make_draw_arr`) and the consecutive assignment
  (`assign_pizzas`).
- `pizzas.dfy`: the greedy matcher.
  - A `Pizza` object carries a `used` flag.
  - `find_matches` repeatedly picks the closest unused pizza to the team built so far.
  - The team loop of `objective` seeds each team with the next unused pizza.

Python's in-place updates are kept as imperative Dafny:

- Fields of the `Street`, `Intersection` and `Pizza` classes.
- The `used` flags.
- The text buffer of the writer.

Each method is proved against a pure specification function or predicate. The
properties are then proved about those specifications.

## Model

| member | source | states |
|---|---|---|
| Traffic.StreetsEndingAt | 2021/Actual/common.py:25-32 | the loop keeps exactly the streets whose end is the intersection, in input order |
| Traffic.EndingAtMembers | 2021/Actual/sean.py:69-76 | a street is among an intersection's incoming streets iff it is in the input and ends there |
| Traffic.EndingAtAppend | 2021/Actual/matheus.py:9-16 | filtering a concatenation is concatenating the filtered parts, so the order of streets is kept |
| Traffic.UsesAppend | 2021/Actual/sean.py:150-153 | the number of times the cars' paths use a street adds up over any split of the car list |
| Baselines.ListUnitLights | 2021/Actual/common.py:41-45 | the `j <= D` loop lists `min(n, D + 1)` streets, each as `(name, 1)`, in incoming order |
| Baselines.ScheduledIdsMembers | 2021/Actual/common.py:36-47 | an intersection gets a schedule iff its id is below `I` and at least one street enters it |
| Baselines.DumbSolution | 2021/Actual/common.py:20-49 | one record per intersection with incoming streets, in increasing id order; each record is the dumb schedule; the returned score is 0 |
| Baselines.MatheusSolution | 2021/Actual/matheus.py:4-31 | one record per intersection with incoming streets, in increasing id order; each record declares one light and lists unit greens; the score is 0 |
| Baselines.DumbScheduleIds | 2021/Actual/common.py:36-47 | the recursive schedule has one record per scheduled id, each carrying that id |
| Baselines.MatheusScheduleIds | 2021/Actual/matheus.py:19-29 | the same for the Matheus schedule |
| Baselines.UnitLightsShape | 2021/Actual/common.py:43-45 | every listed light is the incoming street at the same position, with a green time of 1 |
| Baselines.DumbCountMismatch | 2021/Actual/common.py:39-45 | with more than `D` incoming streets, the record lists one more light than its declared count |
| Baselines.DumbCountAgrees | 2021/Actual/common.py:39-45 | with at most `D` incoming streets, the declared count equals the number of listed lights, and both equal the number of incoming streets |
| Baselines.MatheusCountAgrees | 2021/Actual/matheus.py:20-27 | the Matheus record's declared count of 1 matches its light list iff exactly one street enters, or `D = 0` and some street enters |
| Baselines.IntendedDumbRecord | 2021/Actual/common.py:39-45 | the corrected dumb record lists as many unit lights as it declares, never more than the incoming streets, in incoming order |
| Baselines.IntendedDumbRecordDiffers | 2021/Actual/common.py:39-45 | the corrected record equals the as-written one when `n <= D`, and otherwise is it with the extra light dropped |
| Baselines.Scorer | 2021/Actual/common.py:5-17 | the placeholder scorer awards 0 to every solution |
| GreenTimes.UtilityPositive | 2021/Actual/sean.py:53-54 | a street's score is positive for a positive length, a positive `a` and a nonnegative `b` |
| GreenTimes.UtilityGrowsWithTraffic | 2021/Actual/sean.py:53-54 | with `b > 0`, more cars on a street give it a strictly higher score |
| GreenTimes.WeightsSumToOne | 2021/Actual/sean.py:85 | normalised weights sum to 1 |
| GreenTimes.WeightsPositive | 2021/Actual/sean.py:81-87 | positive scores have a positive total and give positive weights |
| GreenTimes.WeightsShare | 2021/Actual/sean.py:81-87 | each weight times the total score gives back that street's score, so weights are proportional to scores |
| GreenTimes.RoundHalfEven | 2021/Actual/sean.py:96 | the result is within 0.5 of the input, and a tie goes to the even neighbour |
| GreenTimes.RoundMonotone | 2021/Actual/sean.py:96 | rounding never reverses an order |
| GreenTimes.StreetTimeIsRatio | 2021/Actual/sean.py:93-96 | a street's green time is its score over the least score, rounded; the `D / n` factor and the normalisation cancel |
| GreenTimes.StreetTimesNormalised | 2021/Actual/sean.py:93-96 | every green time is at least 1, a least-scored street gets exactly 1, and a higher score never gets a shorter time |
| GreenTimes.UnclampedBudget | 2021/Actual/sean.py:93-97 | scores 10, 5, 1 at `D = 6` give times 10, 5, 1, which sum to more than `D`: the cycle is not held to the duration |
| GreenTimes.InsertOrdered | 2021/Actual/sean.py:183 | inserting an index keeps the order descending by time and stable for equal times |
| GreenTimes.ScheduleOrderSorted | 2021/Actual/sean.py:182-183 | the order is a permutation of the street indices, by descending time, with ties in input order |
| GreenTimes.ScheduleRecordOrdered | 2021/Actual/sean.py:178-188 | the record declares one light per time and lists every street once, in that order, with its own time |
| Allocator.Street.constructor | 2021/Actual/sean.py:45-51 | a new street keeps its start, end, name and length, with score 0 and no cars |
| Allocator.Street.CalcScore | 2021/Actual/sean.py:53-54 | the score becomes `a / length + carsUsing * b`; nothing else changes |
| Allocator.BuildStreetDict | 2021/Actual/sean.py:145-147 | one fresh street object per distinct name; a repeated name keeps its last street |
| Allocator.TallyPath | 2021/Actual/sean.py:151-153 | succeeds iff every name on the path is known; each street then gains its number of occurrences on the path |
| Allocator.CountCar | 2021/Actual/sean.py:153 | the named street gains one car; every other street, and every score, is unchanged |
| Allocator.TallyCars | 2021/Actual/sean.py:150-153 | succeeds iff every car's path is known; each street then gains the number of times all paths use it; scores are unchanged |
| Allocator.ScoreStreets | 2021/Actual/sean.py:155-156 | every street's score becomes its utility; car counts are unchanged |
| Allocator.ScoredStreetDict | 2021/Actual/sean.py:145-156 | building, tallying and scoring fail iff some car's path names an unknown street; otherwise the table holds one street per name, each scored with its reference score |
| Allocator.ScoresOfPositive | 2021/Actual/sean.py:82-84 | the score vector of an intersection's streets is positive when every street score is |
| Allocator.Intersection.constructor | 2021/Actual/sean.py:61-65 | a new intersection has its id, no streets, no times and `D = 0` |
| Allocator.Intersection.FindStreetsAtIntersection | 2021/Actual/sean.py:69-79 | the incoming streets are found in order; `max_lights` becomes `min(n, D)` |
| Allocator.Intersection.WeightStreets | 2021/Actual/sean.py:81-87 | fails iff a street name is missing from the dictionary; otherwise the weights are the normalised scores |
| Allocator.Intersection.FindStreetTimes | 2021/Actual/sean.py:89-97 | when `max_lights == D` nothing is assigned; when `D > 0` and no street enters, it raises division by zero; otherwise the times are the rounded normalised weights |
| Allocator.Intersection.Schedule | 2021/Actual/sean.py:163-164 | weighting then timing fails only when `D > 0` and no street enters, with division by zero; otherwise the times are those the scores of the streets determine |
| Allocator.BuildRecord | 2021/Actual/sean.py:179-188 | the record is the schedule record of the intersection's streets and times |
| Allocator.Objective | 2021/Actual/sean.py:170-190 | one record per intersection, in order, each its schedule record; the score is 0 |
| Allocator.SpecScorePositive | 2021/Actual/sean.py:53-54 | with positive lengths, every street's reference score is positive |
| Allocator.EnteringScoresPositive | 2021/Actual/sean.py:82-84 | the reference scores of an intersection's streets are all positive |
| Allocator.ScoresOfIsSpec | 2021/Actual/sean.py:82-84 | after the tally and scoring passes, the scores read from the objects equal the reference scores |
| Allocator.OpenIntersection | 2021/Actual/sean.py:161-162 | a new intersection holds exactly the streets ending at it, in order, with `max_lights = min(n, D)` and no times yet |
| Allocator.ProcessIntersection | 2021/Actual/sean.py:161-164 | one intersection's pass fails only on division by zero; otherwise its times are those of its scores |
| Allocator.BuildIntersections | 2021/Actual/sean.py:159-165 | the pass succeeds iff `D <= 0` or every intersection below `I` has an incoming street; then it builds `I` intersections in id order |
| Allocator.SeanSolution | 2021/Actual/sean.py:143-190 | the whole allocator equals the reference outcome: an unknown street, a division by zero, or the solution of reference records with score 0 |
| Allocator.SeanRecordDegenerate | 2021/Actual/sean.py:90-91 | with at least `D` incoming streets the record is `[id, 0]` with no lights |
| Allocator.SeanTimesNormalised | 2021/Actual/sean.py:93-96 | with fewer than `D` streets, each time is the rounded ratio of its score to the least score: at least 1, exactly 1 for a least-scored street, and monotone in the score |
| Allocator.SeanRecordOrdered | 2021/Actual/sean.py:178-188 | with fewer than `D` streets, the record declares one light per street, lists each street once, longest green first, and every time is at least 1 |
| SolutionWriter.ParseNatToString | 2021/Actual/solution.py:123 | a natural number written in decimal reads back as itself |
| SolutionWriter.ParseIntToString | 2021/Actual/solution.py:126 | an integer written in decimal, with its sign, reads back as itself |
| SolutionWriter.WriteLights | 2021/Actual/solution.py:128-130 | the buffer gains one `name time` line per light, in order |
| SolutionWriter.WriteRecord | 2021/Actual/solution.py:125-130 | the buffer gains the id line, the count line and the light lines of one record |
| SolutionWriter.WriteFile | 2021/Actual/solution.py:123-130 | the text is the record count followed by each record's lines, each line ended by a newline |
| SolutionWriter.SolutionLineCount | 2021/Actual/solution.py:123-130 | the file has one line, plus two lines per record, plus one line per light |
| SolutionWriter.RecordLinesAt | 2021/Actual/solution.py:123-130 | the first line is the record count; record `k`'s id line, count line and light lines follow the lines of the records before it, in that order |
| SolutionWriter.SplitJoin | 2021/Actual/solution.py:123-130 | splitting the written text at newlines gives back the lines, when no line holds a newline |
| SolutionWriter.ReadLightLine | 2021/Actual/solution.py:129-130 | a light line reads back as its light, even when the name holds spaces |
| SolutionWriter.ReadWritten | 2021/Actual/solution.py:123-130 | a solution whose records declare as many lights as they list, and whose names hold no newline, reads back from the written text unchanged |
| SolutionWriter.OvercountMisread | 2021/Actual/solution.py:126-130 | a record that lists more lights than it declares is written out, but the text does not read back as a solution |
| SolutionWriter.LengthsAccepted | 2021/Actual/solution.py:214-220 | the driver accepts its three argument lists iff their total length is three times the number of files |
| SolutionWriter.EqualLengthsAccepted | 2021/Actual/solution.py:214-215 | equal lengths are always accepted |
| SolutionWriter.UnequalLengthsAccepted | 2021/Actual/solution.py:214-215 | lengths 2, 1 and 3 are accepted although they differ, so the check is weaker than its error message says |
| Draw.Fit | 2021/Practice/sean.py:193-198 | the number of teams drawn of one size is at most those available, fits the room left, and stops short only when the next team would not fit |
| Draw.DrawSize | 2021/Practice/sean.py:192-198 | the inner loop draws `Fit` teams of the size and adds their pizzas to the total used |
| Draw.MakeDrawArr | 2021/Practice/sean.py:188-199 | the loop computes the draw-array specification, size by size in the given order |
| Draw.DrawArrFits | 2021/Practice/sean.py:194 | the drawn team sizes never need more pizzas than there are |
| Draw.DrawArrMultiplicity | 2021/Practice/sean.py:191-198 | with distinct sizes in the order, no size is drawn more often than there are teams of it |
| Draw.AssignPizzas | 2021/Practice/sean.py:171-185 | the loop computes the consecutive-assignment specification |
| Draw.AssignPastEnd | 2021/Practice/sean.py:175-181 | once the cursor has passed the end of the pizzas, no further team is formed |
| Draw.AssignConsecutive | 2021/Practice/sean.py:171-185 | the teams formed are a prefix of the draw array, stopping only at the first size that does not fit; their pizzas are consecutive, from the start, in order |
| Draw.AssignTeamShape | 2021/Practice/sean.py:177-180 | every team entry is its size followed by that many pizzas |
| Pizzas.Pizza.constructor | 2021/Practice/sean.py:25-29 | a new pizza has its ingredients, index and score, and is unused |
| Pizzas.Describe | 2021/Practice/sean.py:31-32 | the description is empty exactly when there are no ingredients, and otherwise opens and closes with a quote |
| Pizzas.ReadDescribed | 2021/Practice/sean.py:31-32 | the description reads back as the ingredient list, when no ingredient holds a quote |
| Pizzas.DescribeAppend | 2021/Practice/sean.py:31-32 | describing two nonempty ingredient lists one after the other is describing them joined by a single space |
| Pizzas.QuerySnoc | 2021/Practice/sean.py:42 | the query is the descriptions of the team so far, joined by single spaces: a new member adds a space and its own description at the end |
| Pizzas.QueryDescribesAll | 2021/Practice/sean.py:42 | when every pizza has an ingredient, the query is the description of all the team's ingredients in order |
| Pizzas.MarkSets | 2021/Practice/sean.py:55-57 | after a series of picks, a pizza is used iff it was used before or was one of the picks (a pick of -1 is the last pizza) |
| Pizzas.ScanBest | 2021/Practice/sean.py:46-53 | the scan returns -1 when no unused pizza has distance at most 1; otherwise it returns an unused pizza of least distance, the last such one, except that it stops at the first unused pizza at distance 0 |
| Pizzas.BestChoiceUnique | 2021/Practice/sean.py:46-53 | for nonnegative distances, the scan's choice is determined by the distances and the flags |
| Pizzas.BestChoiceUnused | 2021/Practice/sean.py:48-51 | a choice other than -1 is a pizza that was unused |
| Pizzas.PickIsFresh | 2021/Practice/sean.py:41-57 | a round's pick (other than -1) was unused at the start and differs from every earlier pick |
| Pizzas.AddChoice | 2021/Practice/sean.py:42-57 | one round describes the team, scans, and marks exactly the chosen pizza used |
| Pizzas.FindMatches | 2021/Practice/sean.py:38-59 | `num_choices - 1` rounds; each round's pick is the scan's choice under the flags left by earlier rounds; the team starts with the seed; the pizzas marked are exactly the picks |
| Pizzas.MarkUsed | 2021/Practice/sean.py:116-117 | marking the matched indices sets exactly those flags |
| Pizzas.MarkCovers | 2021/Practice/sean.py:116-117 | marking never clears a flag |
| Pizzas.FirstUnused | 2021/Practice/sean.py:108-112 | the seed search finds the first unused pizza from the cursor on, or reports that none is left |
| Pizzas.NextSeed | 2021/Practice/sean.py:108-112 | the seed is the first unused pizza from the cursor, now marked; if none is left the cursor's pizza is reused unchanged |
| Pizzas.BuildTeam | 2021/Practice/sean.py:108-117 | the team starts at the first unused pizza from the cursor; its other members are the `find_matches` picks, each the scan's choice under the flags earlier picks left; the entry is the size followed by the members' index values; the flags end with exactly the seed and the picks set |
| Pizzas.GreedyPickAt | 2021/Practice/sean.py:41-57 | in a greedy team, the member after any prefix is the scan's choice for the description of that prefix, under the flags with that prefix marked |
| Pizzas.PicksFromRounds | 2021/Practice/sean.py:41-57 | conversely, members each chosen by the scan after the ones before them form a greedy team |
| Pizzas.GreedyTeamUnique | 2021/Practice/sean.py:108-117 | with nonnegative distances, the flags, the cursor and the size determine the team |
| Pizzas.NextTeam | 2021/Practice/sean.py:106-117 | a pass of the inner loop extends the run of greedy teams: the new team is the greedy team from the flags and cursor the earlier teams left |
| Pizzas.RunConcat | 2021/Practice/sean.py:104-117 | a run of teams followed by a run from where it ended is one run, ending with the flags and the cursor of the second |
| Pizzas.RunCovers | 2021/Practice/sean.py:110-117 | a run of teams only ever sets flags |
| Pizzas.RunRecords | 2021/Practice/sean.py:114 | every team of a run is its size followed by index values of existing pizzas |
| Pizzas.MarkConcat | 2021/Practice/sean.py:116-117 | marking two lists of picks in turn is marking their concatenation |
| Pizzas.TeamsOfSize | 2021/Practice/sean.py:105-117 | the inner loop forms `Fit` teams of one size, stopping when the next would exceed the pizza count; the teams are the greedy run from the flags and cursor it starts with, and the flags end as that run leaves them |
| Pizzas.Objective | 2021/Practice/sean.py:97-119 | the team sizes formed are exactly the draw array for the ordering and team counts and use at most `M` pizzas; the teams are the greedy run from the starting flags and the first pizza, and the flags end as that run leaves them |
| Pizzas.GreedyRunUnique | 2021/Practice/sean.py:104-117 | with nonnegative distances, the starting flags, the cursor and the team sizes determine every team of the run |

## Left out

- Reading input files, writing to disk, timing, logging, pickling and the hyperopt search: these are I/O or outside the heuristics. The writer is modelled as the text it would write.
- The TF-IDF vectoriser and the similarity product are a function parameter `dist` from the team's description text to one distance per pizza. The distances are treated as arbitrary reals.
- The practice scorer (`2021/Practice/common.py`) is not part of this model. The practice objective's score is not modelled.
- `count_ingredients`, the pizza score and the sort by score: the pizza list is an input, already in the order the objective sees.
- `brute_force`, `random_solution` and the generic template class in both `sean.py` files: search drivers and scaffolding.
- The commented-out clamping loop after `find_street_times`: it never runs.
- Floating point: scores, weights and times are exact reals. `np.round` is modelled as rounding half to even. The `uint64` cast loses nothing, because every rounded time is at least 1.
- Allocator.SeanSolution: requires every street length to be positive, as the input format guarantees. A zero length would raise in `calc_score`, and that error is not modelled.
- Allocator.Intersection.FindStreetTimes: the list `[1] * max_lights` that the branch at 2021/Actual/sean.py:90-91 returns is never stored by the caller (2021/Actual/sean.py:164), so the model returns only a status.
- Allocator.SeanRecordDegenerate: `find_street_times` returns `[1] * max_lights` when `max_lights == D`, but the caller never stores it, so the intersection's record is `[id, 0]` with no lights.
- GreenTimes.RoundHalfEven: `np.round` (2021/Actual/sean.py:96) rounds halves to even; the model rounds exact reals the same way, without floating-point error.
- Dictionary iteration order in `calc_score`'s loop: scoring one street does not affect another, so the order is irrelevant.
- Errors are modelled as `UnknownStreet` and `DivisionByZero`, without the offending name or the Python exception text.
- Pizzas.Objective: requires every ordering key to be 2, 3 or 4. A `KeyError` on another key is not modelled.
- Pizzas.Objective: requires the pizza list to have `M` entries and its objects to be distinct. Aliased pizza objects are not modelled.
- Pizzas.QueryDescribesAll: requires every pizza to have an ingredient, as the input format guarantees. A pizza without ingredients adds an empty description, and the join then holds a doubled space.
- Pizzas.FindMatches: the `-1` fallback picks the last pizza whether or not it is used, exactly as the code does. No property claims otherwise.
- Baselines.Scorer: the source is a placeholder that returns 0. The scoring rule in its comment is not modelled.

## Findings

| source | as written | input that shows it | evidently intended | confidence | as-written member | corrected member |
|---|---|---|---|---|---|---|
| 2021/Actual/common.py:39-45 | the record declares `min(n, D)` lights but the loop guard `j <= D` lists `min(n, D + 1)` | two streets entering an intersection with `D = 1`: the record declares 1 light and lists 2, and the written file then does not read back | list exactly `min(n, D)` lights (`j < D`) | not executed | Baselines.DumbCountMismatch | Baselines.IntendedDumbRecord |
