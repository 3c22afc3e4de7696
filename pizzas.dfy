/** The greedy team builder of the practice round. Pizzas are objects whose `used`
    flag the builder sets in place: `find_matches` grows a team from a seed pizza by
    repeatedly taking the unused pizza closest to the team so far, and `objective`
    seeds and fills teams of each size while the pizzas last. The distance of every
    pizza to a team comes from a text-similarity model that is a parameter here: a
    function from the team's description text to one distance per pizza. */
module Pizzas {
  import opened Basics
  import opened Draw

  class Pizza {
    const idx: nat
    const ingredients: seq<string>
    const score: real
    var used: bool

    constructor(ingredients: seq<string>, idx: nat, score: real)
      ensures this.ingredients == ingredients && this.idx == idx && this.score == score
      ensures !used
    {
      this.score := score;
      this.idx := idx;
      this.ingredients := ingredients;
      used := false;
    }
  }

  // ---------------------------------------------------------------- descriptions

  function Quote(v: string): string
  {
    "\"" + v + "\""
  }

  function QuoteAll(ingredients: seq<string>): (r: seq<string>)
    ensures |r| == |ingredients|
  {
    if ingredients == [] then [] else [Quote(ingredients[0])] + QuoteAll(ingredients[1..])
  }

  /** The words joined with single spaces. */
  function JoinSpaced(words: seq<string>): string
  {
    if words == [] then ""
    else if |words| == 1 then words[0]
    else words[0] + " " + JoinSpaced(words[1..])
  }

  /** `to_string`: every ingredient in double quotes, separated by single spaces. The
      text is empty exactly when there are no ingredients, and otherwise opens and
      closes with a quote. */
  function Describe(ingredients: seq<string>): (r: string)
    ensures r == "" <==> ingredients == []
    ensures ingredients != [] ==> |r| >= 2 && r[0] == '"' && r[|r| - 1] == '"'
  {
    if ingredients == [] then ""
    else
      QuotedEnds(ingredients);
      JoinSpaced(QuoteAll(ingredients))
  }

  lemma {:induction false} QuotedEnds(ingredients: seq<string>)
    requires ingredients != []
    ensures var r := JoinSpaced(QuoteAll(ingredients)); |r| >= 2 && r[0] == '"' && r[|r| - 1] == '"'
  {
    var quoted := QuoteAll(ingredients);
    assert quoted[0] == Quote(ingredients[0]);
    assert quoted[1..] == QuoteAll(ingredients[1..]);
    if |ingredients| > 1 {
      QuotedEnds(ingredients[1..]);
    }
  }

  /** The text `find_matches` hands to the similarity model: the descriptions of the
      pizzas chosen so far, separated by single spaces. */
  function Query(choices: seq<Pizza>): string
  {
    JoinSpaced(seq(|choices|, k requires 0 <= k < |choices| => Describe(choices[k].ingredients)))
  }

  /** The ingredients of the pizzas, one pizza after the other. */
  function AllIngredients(choices: seq<Pizza>): seq<string>
  {
    if choices == [] then [] else AllIngredients(choices[..|choices| - 1]) + choices[|choices| - 1].ingredients
  }

  /** When every pizza has an ingredient, the query is the description of all the
      team's ingredients together, so it reads back as that list. */
  lemma {:induction false} QueryDescribesAll(choices: seq<Pizza>)
    requires forall k :: 0 <= k < |choices| ==> choices[k].ingredients != []
    ensures Query(choices) == Describe(AllIngredients(choices))
  {
    if choices != [] {
      var init, last := choices[..|choices| - 1], choices[|choices| - 1];
      assert choices == init + [last];
      assert forall k :: 0 <= k < |init| ==> init[k].ingredients != [] by {
        forall k | 0 <= k < |init| ensures init[k].ingredients != [] {
          assert init[k] == choices[k];
        }
      }
      QueryDescribesAll(init);
      if init != [] {
        AllIngredientsNonEmpty(init);
      }
      QueryStep(init, last);
    }
  }

  /** One more pizza adds its ingredients to the description the query spells out. */
  lemma QueryStep(init: seq<Pizza>, last: Pizza)
    requires Query(init) == Describe(AllIngredients(init))
    requires last.ingredients != [] && (init != [] ==> AllIngredients(init) != [])
    ensures Query(init + [last]) == Describe(AllIngredients(init + [last]))
  {
    var choices := init + [last];
    assert choices[..|choices| - 1] == init;
    QuerySnoc(init, last);
    if init == [] {
      assert AllIngredients(choices) == last.ingredients;
    } else {
      DescribeAppend(AllIngredients(init), last.ingredients);
    }
  }

  /** Each round's query is the last one, a space and the new member's description. */
  lemma QuerySnoc(init: seq<Pizza>, last: Pizza)
    ensures init == [] ==> Query(init + [last]) == Describe(last.ingredients)
    ensures init != [] ==> Query(init + [last]) == Query(init) + " " + Describe(last.ingredients)
  {
    var choices := init + [last];
    var words := seq(|choices|, k requires 0 <= k < |choices| => Describe(choices[k].ingredients));
    var initWords := seq(|init|, k requires 0 <= k < |init| => Describe(init[k].ingredients));
    assert words == initWords + [Describe(last.ingredients)];
    if init != [] {
      JoinSpacedAppend(initWords, [Describe(last.ingredients)]);
    }
  }

  lemma AllIngredientsNonEmpty(choices: seq<Pizza>)
    requires choices != [] && choices[0].ingredients != []
    ensures AllIngredients(choices) != []
    decreases |choices|
  {
    if |choices| > 1 {
      AllIngredientsNonEmpty(choices[..|choices| - 1]);
    }
  }

  /** Describing two ingredient lists in turn, with a space between, describes both. */
  lemma DescribeAppend(a: seq<string>, b: seq<string>)
    requires a != [] && b != []
    ensures Describe(a + b) == Describe(a) + " " + Describe(b)
  {
    QuoteAllAppend(a, b);
    JoinSpacedAppend(QuoteAll(a), QuoteAll(b));
  }

  lemma {:induction false} JoinSpacedAppend(a: seq<string>, b: seq<string>)
    requires a != [] && b != []
    ensures JoinSpaced(a + b) == JoinSpaced(a) + " " + JoinSpaced(b)
  {
    if |a| > 1 {
      JoinSpacedAppend(a[1..], b);
      assert (a + b)[1..] == a[1..] + b;
    } else {
      assert (a + b)[1..] == b;
    }
  }

  lemma {:induction false} QuoteAllAppend(a: seq<string>, b: seq<string>)
    ensures QuoteAll(a + b) == QuoteAll(a) + QuoteAll(b)
  {
    if a == [] {
      assert a + b == b;
    } else {
      var rest := a[1..] + b;
      assert (a + b)[0] == a[0] && (a + b)[1..] == rest;
      QuoteAllAppend(a[1..], b);
      calc {
        QuoteAll(a + b);
        [Quote(a[0])] + QuoteAll(rest);
        [Quote(a[0])] + (QuoteAll(a[1..]) + QuoteAll(b));
        ([Quote(a[0])] + QuoteAll(a[1..])) + QuoteAll(b);
      }
    }
  }




  predicate NoQuote(v: string)
  {
    forall j :: 0 <= j < |v| ==> v[j] != '"'
  }

  /** Reads back a non-empty description: quoted items separated by single spaces. */
  function ReadItems(s: string): Option<seq<string>>
    decreases |s|
  {
    if s == [] || s[0] != '"' then None
    else
      var k := 1 + IndexOf(s[1..], '"');
      if k == |s| then None
      else
        var item, after := s[1..k], s[k + 1..];
        if after == [] then Some([item])
        else if after[0] != ' ' then None
        else
          match ReadItems(after[1..])
          case None => None
          case Some(items) => Some([item] + items)
  }

  function ReadDescription(s: string): Option<seq<string>>
  {
    if s == [] then Some([]) else ReadItems(s)
  }

  lemma QuoteFoundAfter(v: string, tail: string)
    requires NoQuote(v)
    ensures IndexOf(v + "\"" + tail, '"') == |v|
  {
    var s := v + "\"" + tail;
    assert s[|v|] == '"';
    assert forall j :: 0 <= j < |v| ==> s[j] == v[j];
  }
  /** Round trip: the ingredients are read back from `to_string`'s text, provided no
      ingredient holds a double quote (the quoting does not escape them). */
  lemma ReadDescribed(ingredients: seq<string>)
    requires forall k :: 0 <= k < |ingredients| ==> NoQuote(ingredients[k])
    ensures ReadDescription(Describe(ingredients)) == Some(ingredients)
  {
    if ingredients != [] {
      ReadItemsDescribed(ingredients);
    }
  }

  lemma {:induction false} ReadItemsDescribed(ingredients: seq<string>)
    requires ingredients != []
    requires forall k :: 0 <= k < |ingredients| ==> NoQuote(ingredients[k])
    ensures ReadItems(Describe(ingredients)) == Some(ingredients)
  {
    if |ingredients| == 1 {
      DescribeCons(ingredients);
      ReadItemsLast(ingredients[0]);
      assert ingredients == [ingredients[0]];
    } else {
      ReadItemsDescribed(ingredients[1..]);
      ReadItemsMore(ingredients);
    }
  }

  /** A description of two or more ingredients reads back when the description of
      all but the first does. */
  lemma ReadItemsMore(ingredients: seq<string>)
    requires |ingredients| > 1 && NoQuote(ingredients[0])
    requires ReadItems(Describe(ingredients[1..])) == Some(ingredients[1..])
    ensures ReadItems(Describe(ingredients)) == Some(ingredients)
  {
    DescribeCons(ingredients);
    ReadItemsSpaced(ingredients[0], Describe(ingredients[1..]), ingredients[1..]);
    ConsSplit(ingredients);
  }

  lemma ConsSplit<T>(s: seq<T>)
    requires s != []
    ensures [s[0]] + s[1..] == s
  {
  }

  lemma ReadItemsLast(v: string)
    requires NoQuote(v)
    ensures ReadItems(Quote(v)) == Some([v])
  {
    ReadItemsCons(v, "");
    assert "\"" + v + "\"" + "" == Quote(v);
  }

  lemma ReadItemsSpaced(v: string, more: string, items: seq<string>)
    requires NoQuote(v) && ReadItems(more) == Some(items)
    ensures ReadItems(Quote(v) + " " + more) == Some([v] + items)
  {
    var tail := " " + more;
    ReadItemsCons(v, tail);
    assert tail[1..] == more;
    assert "\"" + v + "\"" + tail == Quote(v) + " " + more;
  }

  /** Reading one quoted item and what follows it. */
  lemma ReadItemsCons(v: string, tail: string)
    requires NoQuote(v)
    ensures ReadItems("\"" + v + "\"" + tail) ==
      if tail == [] then Some([v])
      else if tail[0] != ' ' then None
      else match ReadItems(tail[1..])
        case None => None
        case Some(items) => Some([v] + items)
  {
    var s := "\"" + v + "\"" + tail;
    assert s[0] == '"';
    assert s[1..] == v + "\"" + tail;
    QuoteFoundAfter(v, tail);
    var k := 1 + |v|;
    assert s[1..k] == v;
    assert s[k + 1..] == tail;
  }

  lemma DescribeCons(ingredients: seq<string>)
    requires ingredients != []
    ensures |ingredients| == 1 ==> Describe(ingredients) == Quote(ingredients[0])
    ensures |ingredients| > 1 ==> Describe(ingredients) == Quote(ingredients[0]) + " " + Describe(ingredients[1..])
  {
    var quoted := QuoteAll(ingredients);
    assert quoted[0] == Quote(ingredients[0]);
    assert quoted[1..] == QuoteAll(ingredients[1..]);
  }

  // ---------------------------------------------------------------- used flags

  predicate Distinct(pizzas: seq<Pizza>)
  {
    forall i, j :: 0 <= i < j < |pizzas| ==> pizzas[i] != pizzas[j]
  }

  /** The `used` flags, in list order. */
  function Used(pizzas: seq<Pizza>): (flags: seq<bool>)
    reads pizzas
    ensures |flags| == |pizzas|
    ensures forall k :: 0 <= k < |pizzas| ==> flags[k] == pizzas[k].used
  {
    if pizzas == [] then [] else [pizzas[0].used] + Used(pizzas[1..])
  }

  /** The index values of the pizzas. */
  function Idxs(pizzas: seq<Pizza>): set<nat>
  {
    set k | 0 <= k < |pizzas| :: pizzas[k].idx
  }

  /** A Python list index: a negative one counts from the end. */
  function Position(n: nat, m: int): int
  {
    if m < 0 then n + m else m
  }

  /** The flags after setting those at the given list indices, in order. */
  function Mark(flags: seq<bool>, picks: seq<int>): (r: seq<bool>)
    ensures |r| == |flags|
  {
    if picks == [] then flags
    else
      var earlier := Mark(flags, picks[..|picks| - 1]);
      var q := Position(|flags|, picks[|picks| - 1]);
      if 0 <= q < |earlier| then earlier[q := true] else earlier
  }

  /** The list positions the picks point at. */
  function Targets(n: nat, picks: seq<int>): set<int>
  {
    set k | 0 <= k < |picks| :: Position(n, picks[k])
  }

  /** A flag is set after marking exactly when it was set before or one of the
      picks points at it. */
  lemma {:induction false} MarkSets(flags: seq<bool>, picks: seq<int>, j: nat)
    requires j < |flags|
    ensures Mark(flags, picks)[j] <==> flags[j] || j in Targets(|flags|, picks)
  {
    if picks != [] {
      var init := picks[..|picks| - 1];
      MarkSets(flags, init, j);
      TargetsSnoc(|flags|, init, picks[|picks| - 1]);
      assert init + [picks[|picks| - 1]] == picks;
    }
  }

  lemma TargetsSnoc(n: nat, picks: seq<int>, p: int)
    ensures Targets(n, picks + [p]) == Targets(n, picks) + {Position(n, p)}
  {
    var all := picks + [p];
    forall q | q in Targets(n, all)
      ensures q in Targets(n, picks) + {Position(n, p)}
    {
      var k :| 0 <= k < |all| && Position(n, all[k]) == q;
      if k < |picks| {
        assert all[k] == picks[k];
      }
    }
    forall q | q in Targets(n, picks)
      ensures q in Targets(n, all)
    {
      var k :| 0 <= k < |picks| && Position(n, picks[k]) == q;
      assert all[k] == picks[k];
    }
    assert all[|picks|] == p;
  }

  /** Every flag set before is still set, and the flag lists have the same length. */
  predicate Covers(before: seq<bool>, after: seq<bool>)
  {
    |before| == |after| && forall j :: 0 <= j < |before| && before[j] ==> after[j]
  }

  // ---------------------------------------------------------------- the scan

  /** What the inner scan of `find_matches` chooses, given one distance and one flag
      per pizza. The scan keeps the best distance so far, starting at 1, and replaces
      it by any unused distance at most as large (`<=`, so a later equal distance
      wins); it stops at the first unused distance that brings the best down to 0.
      `r == -1` means no unused pizza is within distance 1. */
  predicate BestChoice(d: seq<real>, used: seq<bool>, r: int)
    requires |d| == |used|
  {
    if r == -1 then
      forall j :: 0 <= j < |d| && !used[j] ==> d[j] > 1.0
    else
      0 <= r < |d| && !used[r] && d[r] <= 1.0
      && (forall j :: 0 <= j < r && !used[j] ==> d[r] <= d[j])
      && (forall j :: r < j < |d| && !used[j] ==> d[r] == 0.0 || d[r] < d[j])
      && (d[r] == 0.0 ==> forall j :: 0 <= j < r && !used[j] ==> d[j] > 0.0)
  }

  /** The scan inside `find_matches`. */
  method ScanBest(distances: seq<real>, pizzas: seq<Pizza>) returns (best: int)
    requires |distances| == |pizzas|
    ensures BestChoice(distances, Used(pizzas), best)
  {
    ghost var used := Used(pizzas);
    var bestDistance: real := 1.0;
    best := -1;
    var i := 0;
    while i < |distances|
      invariant ScanSoFar(distances, used, i, best, bestDistance)
    {
      ScanAdvance(distances, used, i, best, bestDistance);
      if !pizzas[i].used {
        var val := distances[i];
        if val <= bestDistance {
          bestDistance := val;
          best := i;
        }
        if bestDistance == 0.0 {
          return;
        }
      }
      i := i + 1;
    }
    ScanFinish(distances, used, best, bestDistance);
  }

  /** What the scan knows after looking at the first `i` distances: the best distance
      so far, never 0, and where it was found. */
  predicate ScanSoFar(d: seq<real>, used: seq<bool>, i: nat, best: int, bestDistance: real)
  {
    |d| == |used| && i <= |d| && bestDistance != 0.0
    && (best == -1 ==> bestDistance == 1.0 && forall j :: 0 <= j < i && !used[j] ==> d[j] > 1.0)
    && (best != -1 ==> 0 <= best < i && !used[best] && bestDistance == d[best] && bestDistance <= 1.0)
    && (forall j :: 0 <= j < i && !used[j] && j < best ==> bestDistance <= d[j])
    && (forall j :: 0 <= j < i && !used[j] && best < j ==> bestDistance < d[j])
  }

  /** One step of the scan: it either stops with its choice or knows one more distance. */
  lemma ScanAdvance(d: seq<real>, used: seq<bool>, i: nat, best: int, bestDistance: real)
    requires ScanSoFar(d, used, i, best, bestDistance) && i < |d|
    ensures used[i] ==> ScanSoFar(d, used, i + 1, best, bestDistance)
    ensures !used[i] && d[i] <= bestDistance && d[i] == 0.0 ==> BestChoice(d, used, i)
    ensures !used[i] && d[i] <= bestDistance && d[i] != 0.0 ==> ScanSoFar(d, used, i + 1, i, d[i])
    ensures !used[i] && bestDistance < d[i] ==> ScanSoFar(d, used, i + 1, best, bestDistance)
  {
  }

  lemma ScanFinish(d: seq<real>, used: seq<bool>, best: int, bestDistance: real)
    requires ScanSoFar(d, used, |d|, best, bestDistance)
    ensures BestChoice(d, used, best)
  {
  }

  /** With distances that are never negative, as similarity products are, the scan's
      choice is the only one `BestChoice` allows. */
  lemma BestChoiceUnique(d: seq<real>, used: seq<bool>, r1: int, r2: int)
    requires |d| == |used|
    requires forall j :: 0 <= j < |d| ==> d[j] >= 0.0
    requires BestChoice(d, used, r1) && BestChoice(d, used, r2)
    ensures r1 == r2
  {
  }

  /** A pizza other than the fallback is unused when it is picked, so it is neither
      used before `find_matches` starts nor picked earlier in the same call. */
  lemma BestChoiceUnused(d: seq<real>, used: seq<bool>, r: int)
    requires |d| == |used| && r != -1 && BestChoice(d, used, r)
    ensures 0 <= r < |used| && !used[r]
  {
  }

  lemma PickIsFresh(flags: seq<bool>, picks: seq<int>, k: nat, d: seq<real>)
    requires k < |picks| && |d| == |flags|
    requires picks[k] != -1
    requires BestChoice(d, Mark(flags, picks[..k]), picks[k])
    ensures 0 <= picks[k] < |flags| && !flags[picks[k]]
    ensures forall i :: 0 <= i < k ==> picks[i] != picks[k]
  {
    var p := picks[k];
    BestChoiceUnused(d, Mark(flags, picks[..k]), p);
    MarkSets(flags, picks[..k], p);
    forall i | 0 <= i < k
      ensures picks[i] != p
    {
      assert picks[..k][i] == picks[i];
      assert Position(|flags|, picks[i]) in Targets(|flags|, picks[..k]);
    }
  }

  // ---------------------------------------------------------------- find_matches

  /** `find_matches`: starting from `self`, adds `numChoices - 1` pizzas, each the
      scan's choice for the description of the team so far, or the last pizza of the
      list when the scan finds none, and marks each as used at once. `idxs` holds the
      scan results as they are, `-1` included. The ghost results record, per round,
      the query text and the flags the scan saw. */
  method FindMatches(self: Pizza, pizzas: seq<Pizza>, numChoices: nat, dist: string -> seq<real>)
    returns (choices: seq<Pizza>, idxs: seq<int>, ghost queries: seq<string>, ghost seen: seq<seq<bool>>)
    requires pizzas != [] && Distinct(pizzas)
    requires forall t :: |dist(t)| == |pizzas|
    modifies pizzas
    ensures |idxs| == (if numChoices == 0 then 0 else numChoices - 1)
    ensures |choices| == |idxs| + 1 && choices[0] == self
    ensures |queries| == |idxs| && |seen| == |idxs|
    ensures forall k :: 0 <= k < |idxs| ==>
      -1 <= idxs[k] < |pizzas| && choices[k + 1] == pizzas[Position(|pizzas|, idxs[k])]
    ensures forall k :: 0 <= k < |idxs| ==> queries[k] == Query(choices[..k + 1])
    ensures seen == MarkHistory(old(Used(pizzas)), idxs)
    ensures forall k :: 0 <= k < |idxs| ==> |seen[k]| == |pizzas| && BestChoice(dist(queries[k]), seen[k], idxs[k])
    ensures Used(pizzas) == Mark(old(Used(pizzas)), idxs)
  {
    ghost var start := Used(pizzas);
    choices := [self];
    idxs := [];
    queries := [];
    seen := [];
    var rounds := if numChoices == 0 then 0 else numChoices - 1;
    for round := 0 to rounds
      invariant |idxs| == round && |choices| == round + 1 && choices[0] == self
      invariant |queries| == round && |seen| == round
      invariant forall k :: 0 <= k < round ==>
        -1 <= idxs[k] < |pizzas| && choices[k + 1] == pizzas[Position(|pizzas|, idxs[k])]
      invariant forall k :: 0 <= k < round ==> queries[k] == Query(choices[..k + 1])
      invariant seen == MarkHistory(start, idxs)
      invariant forall k :: 0 <= k < round ==> |seen[k]| == |pizzas| && BestChoice(dist(queries[k]), seen[k], idxs[k])
      invariant Used(pizzas) == Mark(start, idxs)
    {
      ghost var query := Query(choices);
      ghost var flags := Used(pizzas);
      var best, pos := AddChoice(choices, pizzas, dist);
      QueriesSnoc(queries, choices, pizzas[pos]);
      MarkSnoc(start, idxs, best);
      MarkHistorySnoc(start, idxs, best);
      ChoicesSnoc(choices, idxs, pizzas, best);
      ScansSnoc(queries, seen, idxs, query, flags, best, |pizzas|, dist);
      choices := choices + [pizzas[pos]];
      idxs := idxs + [best];
      queries := queries + [query];
      seen := seen + [flags];
    }
  }

  lemma ChoicesSnoc(choices: seq<Pizza>, idxs: seq<int>, pizzas: seq<Pizza>, best: int)
    requires pizzas != [] && |choices| == |idxs| + 1 && -1 <= best < |pizzas|
    requires forall k :: 0 <= k < |idxs| ==>
      -1 <= idxs[k] < |pizzas| && choices[k + 1] == pizzas[Position(|pizzas|, idxs[k])]
    requires 0 <= Position(|pizzas|, best) < |pizzas|
    ensures var c, i := choices + [pizzas[Position(|pizzas|, best)]], idxs + [best];
      forall k :: 0 <= k < |i| ==> -1 <= i[k] < |pizzas| && c[k + 1] == pizzas[Position(|pizzas|, i[k])]
  {
  }

  lemma ScansSnoc(queries: seq<string>, seen: seq<seq<bool>>, idxs: seq<int>, query: string, flags: seq<bool>,
                  best: int, n: nat, dist: string -> seq<real>)
    requires |queries| == |idxs| && |seen| == |idxs| && |flags| == n && forall t :: |dist(t)| == n
    requires forall k :: 0 <= k < |idxs| ==> |seen[k]| == n && BestChoice(dist(queries[k]), seen[k], idxs[k])
    requires BestChoice(dist(query), flags, best)
    ensures var q, s, i := queries + [query], seen + [flags], idxs + [best];
      forall k :: 0 <= k < |i| ==> |s[k]| == n && BestChoice(dist(q[k]), s[k], i[k])
  {
    var q, s, i := queries + [query], seen + [flags], idxs + [best];
    forall k | 0 <= k < |i|
      ensures |s[k]| == n && BestChoice(dist(q[k]), s[k], i[k])
    {
      if k < |idxs| {
        assert q[k] == queries[k] && s[k] == seen[k] && i[k] == idxs[k];
      }
    }
  }

  /** One round of `find_matches`: the scan's choice for the description of the team
      so far, or the last pizza when the scan finds none, marked as used. */
  method AddChoice(choices: seq<Pizza>, pizzas: seq<Pizza>, dist: string -> seq<real>) returns (best: int, pos: nat)
    requires pizzas != [] && Distinct(pizzas)
    requires forall t :: |dist(t)| == |pizzas|
    modifies pizzas
    ensures -1 <= best < |pizzas| && pos == Position(|pizzas|, best) && pos < |pizzas|
    ensures BestChoice(dist(Query(choices)), old(Used(pizzas)), best)
    ensures Used(pizzas) == old(Used(pizzas))[pos := true]
  {
    var query := Query(choices);
    var distances := dist(query);
    best := ScanBest(distances, pizzas);
    pos := if best == -1 then |pizzas| - 1 else best;
    SetUsed(pizzas, pos);
  }

  /** Sets the `used` flag of the pizza at list position `pos`; no other flag moves. */
  method SetUsed(pizzas: seq<Pizza>, pos: nat)
    requires pos < |pizzas| && Distinct(pizzas)
    modifies pizzas
    ensures Used(pizzas) == old(Used(pizzas))[pos := true]
  {
    ghost var flags := Used(pizzas);
    pizzas[pos].used := true;
    assert Used(pizzas) == flags[pos := true];
  }

  /** The flags before each pick: entry `k` is the flags with the first `k` picks set. */
  function MarkHistory(flags: seq<bool>, picks: seq<int>): (r: seq<seq<bool>>)
    ensures |r| == |picks|
  {
    if picks == [] then [] else MarkHistory(flags, picks[..|picks| - 1]) + [Mark(flags, picks[..|picks| - 1])]
  }

  lemma MarkHistorySnoc(flags: seq<bool>, picks: seq<int>, p: int)
    ensures MarkHistory(flags, picks + [p]) == MarkHistory(flags, picks) + [Mark(flags, picks)]
  {
    assert (picks + [p])[..|picks|] == picks;
  }

  /** The history's entry `k` is the flags with the first `k` picks set. */
  lemma {:induction false} MarkHistoryAt(flags: seq<bool>, picks: seq<int>, k: nat)
    requires k < |picks|
    ensures MarkHistory(flags, picks)[k] == Mark(flags, picks[..k])
  {
    var init := picks[..|picks| - 1];
    if k < |init| {
      MarkHistoryAt(flags, init, k);
      assert init[..k] == picks[..k];
    } else {
      assert init == picks[..k];
    }
  }

  lemma QueriesSnoc(queries: seq<string>, choices: seq<Pizza>, x: Pizza)
    requires |choices| == |queries| + 1
    requires forall k :: 0 <= k < |queries| ==> queries[k] == Query(choices[..k + 1])
    ensures var q, c := queries + [Query(choices)], choices + [x];
      forall k :: 0 <= k < |q| ==> q[k] == Query(c[..k + 1])
  {
    var q, c := queries + [Query(choices)], choices + [x];
    forall k | 0 <= k < |q|
      ensures q[k] == Query(c[..k + 1])
    {
      assert c[..k + 1] == choices[..k + 1];
      if k == |queries| {
        assert choices[..k + 1] == choices;
      }
    }
  }

  lemma MarkSnoc(flags: seq<bool>, picks: seq<int>, p: int)
    ensures var q := Position(|flags|, p);
      Mark(flags, picks + [p]) == if 0 <= q < |flags| then Mark(flags, picks)[q := true] else Mark(flags, picks)
    ensures forall k :: 0 <= k <= |picks| ==> (picks + [p])[..k] == picks[..k]
  {
    assert (picks + [p])[..|picks|] == picks;
  }

  /** The loop of `objective` that marks the pizzas `find_matches` returned. */
  method MarkUsed(pizzas: seq<Pizza>, idxs: seq<int>)
    requires Distinct(pizzas)
    requires forall k :: 0 <= k < |idxs| ==> -|pizzas| <= idxs[k] < |pizzas|
    modifies pizzas
    ensures Used(pizzas) == Mark(old(Used(pizzas)), idxs)
  {
    ghost var start := Used(pizzas);
    for k := 0 to |idxs|
      invariant Used(pizzas) == Mark(start, idxs[..k])
    {
      var m := idxs[k];
      var pos := if m < 0 then |pizzas| + m else m;
      SetUsed(pizzas, pos);
      MarkSnoc(start, idxs[..k], m);
      PrefixSnoc(idxs, k);
    }
    assert idxs[..|idxs|] == idxs;
  }

  lemma PrefixSnoc<T>(s: seq<T>, k: nat)
    requires k < |s|
    ensures s[..k] + [s[k]] == s[..k + 1]
  {
  }

  lemma {:induction false} MarkCovers(flags: seq<bool>, picks: seq<int>)
    ensures Covers(flags, Mark(flags, picks))
  {
    if picks != [] {
      MarkCovers(flags, picks[..|picks| - 1]);
    }
  }

  // ---------------------------------------------------------------- objective

  /** The first unused pizza at or after `curr`, if any. */
  function FirstUnused(flags: seq<bool>, curr: nat): (r: Option<nat>)
    decreases |flags| - curr
    ensures r.Some? ==> (curr <= r.value < |flags| && !flags[r.value]
      && forall j :: curr <= j < r.value ==> flags[j])
    ensures r.None? ==> forall j :: curr <= j < |flags| ==> flags[j]
  {
    if curr >= |flags| then None
    else if !flags[curr] then Some(curr)
    else FirstUnused(flags, curr + 1)
  }

  /** The seed scan of `objective`: the first unused pizza from `curr` on becomes the
      seed and is marked used; when there is none the seed stays at `curr`. The seed
      never moves backwards. */
  method NextSeed(pizzas: seq<Pizza>, curr: nat) returns (seed: nat)
    requires curr < |pizzas| && Distinct(pizzas)
    modifies pizzas
    ensures curr <= seed < |pizzas|
    ensures var first := FirstUnused(old(Used(pizzas)), curr);
      if first.Some?
      then seed == first.value && Used(pizzas) == old(Used(pizzas))[seed := true]
      else seed == curr && Used(pizzas) == old(Used(pizzas))
  {
    seed := curr;
    for val := curr to |pizzas|
      invariant forall j :: curr <= j < val ==> pizzas[j].used
      invariant seed == curr
    {
      if !pizzas[val].used {
        seed := val;
        FirstUnusedIs(Used(pizzas), curr, val);
        SetUsed(pizzas, seed);
        return;
      }
    }
    assert FirstUnused(Used(pizzas), curr) == None;
  }

  lemma {:induction false} FirstUnusedIs(flags: seq<bool>, curr: nat, val: nat)
    requires curr <= val < |flags| && !flags[val]
    requires forall j :: curr <= j < val ==> flags[j]
    ensures FirstUnused(flags, curr) == Some(val)
    decreases val - curr
  {
    if curr < val {
      FirstUnusedIs(flags, curr + 1, val);
    }
  }

  /** The counts of teams of 2, 3 and 4 people, keyed by team size. */
  function TeamCounts(t2: nat, t3: nat, t4: nat): map<nat, nat>
  {
    map[4 := t4, 3 := t3, 2 := t2]
  }

  /** A team record: its size followed by that many pizza index values, each one of
      the given ones. */
  predicate TeamRecord(team: seq<nat>, ids: set<nat>)
  {
    |team| >= 1 && |team| == team[0] + 1 && forall j :: 1 <= j < |team| ==> team[j] in ids
  }

  predicate TeamRecords(teams: seq<seq<nat>>, ids: set<nat>)
  {
    forall k :: 0 <= k < |teams| ==> TeamRecord(teams[k], ids)
  }

  lemma RecordsConcat(a: seq<seq<nat>>, b: seq<seq<nat>>, ids: set<nat>)
    requires TeamRecords(a, ids) && TeamRecords(b, ids)
    ensures TeamRecords(a + b, ids)
  {
    forall k | 0 <= k < |a + b|
      ensures TeamRecord((a + b)[k], ids)
    {
      if k < |a| {
        assert (a + b)[k] == a[k];
      } else {
        assert (a + b)[k] == b[k - |a|];
      }
    }
  }

  function IdxsOf(choices: seq<Pizza>): (r: seq<nat>)
    ensures |r| == |choices|
    ensures forall k :: 0 <= k < |choices| ==> r[k] == choices[k].idx
  {
    seq(|choices|, k requires 0 <= k < |choices| => choices[k].idx)
  }

  /** The entry `objective` appends for a team: its size, then the index values of
      its pizzas. */
  function TeamEntry(size: nat, choices: seq<Pizza>): seq<nat>
  {
    [size] + IdxsOf(choices)
  }

  // ---------------------------------------------------------------- greedy teams

  /** The seed `objective` takes given the flags and the cursor `curr`: the first
      unused pizza from `curr` on, or `curr` itself when none is left. */
  function SeedOf(flags: seq<bool>, curr: nat): nat
  {
    match FirstUnused(flags, curr)
    case Some(v) => v
    case None => curr
  }

  /** Every entry is a Python index into a list of `n` pizzas: a position, or -1 for
      the last one. */
  predicate InList(n: nat, members: seq<int>)
  {
    forall k :: 0 <= k < |members| ==> -1 <= members[k] < n && 0 <= Position(n, members[k])
  }

  /** The pizzas the entries point at. */
  function Chosen(pizzas: seq<Pizza>, members: seq<int>): (r: seq<Pizza>)
    requires InList(|pizzas|, members)
    ensures |r| == |members|
    ensures forall k :: 0 <= k < |members| ==> r[k] == pizzas[Position(|pizzas|, members[k])]
  {
    seq(|members|, k requires 0 <= k < |members| => pizzas[Position(|pizzas|, members[k])])
  }

  /** The members after the first are the greedy picks: each is the scan's choice
      for the description of the members before it, under the flags those members
      leave set. */
  predicate GreedyPicks(pizzas: seq<Pizza>, flags: seq<bool>, members: seq<int>, dist: string -> seq<real>)
    decreases |members|
  {
    |flags| == |pizzas| && InList(|pizzas|, members)
    && (|members| <= 1
        || var init := members[..|members| - 1];
           GreedyPicks(pizzas, flags, init, dist)
           && var d := dist(Query(Chosen(pizzas, init)));
           |d| == |pizzas| && BestChoice(d, Mark(flags, init), members[|members| - 1]))
  }

  /** One team as `objective` builds it from the flags and the cursor `curr`: its
      first member is the seed, the others are the greedy picks, and the record is the
      team size followed by the members' index values. */
  predicate GreedyTeam(pizzas: seq<Pizza>, flags: seq<bool>, curr: nat, members: seq<int>, team: seq<nat>,
                       dist: string -> seq<real>)
  {
    GreedyPicks(pizzas, flags, members, dist) && |members| >= 1
    && members[0] == SeedOf(flags, curr)
    && team == TeamEntry(|members|, Chosen(pizzas, members))
  }

  /** Each pick of a greedy team, at position `k`, is the scan's choice for the team
      before it. */
  lemma {:induction false} GreedyPickAt(pizzas: seq<Pizza>, flags: seq<bool>, members: seq<int>,
                                        dist: string -> seq<real>, k: nat)
    requires GreedyPicks(pizzas, flags, members, dist) && 1 <= k < |members|
    ensures InList(|pizzas|, members[..k])
    ensures var d := dist(Query(Chosen(pizzas, members[..k])));
      |d| == |pizzas| && BestChoice(d, Mark(flags, members[..k]), members[k])
    decreases |members|
  {
    var init := members[..|members| - 1];
    if k < |init| {
      GreedyPickAt(pizzas, flags, init, dist, k);
      assert init[..k] == members[..k] && init[k] == members[k];
    } else {
      assert init == members[..k];
    }
  }

  /** Conversely, members whose every pick is the scan's choice are greedy picks. */
  lemma {:induction false} PicksFromRounds(pizzas: seq<Pizza>, flags: seq<bool>, members: seq<int>,
                                           dist: string -> seq<real>)
    requires |flags| == |pizzas| && InList(|pizzas|, members)
    requires forall j :: 1 <= j < |members| ==>
      InList(|pizzas|, members[..j])
      && var d := dist(Query(Chosen(pizzas, members[..j])));
         |d| == |pizzas| && BestChoice(d, Mark(flags, members[..j]), members[j])
    ensures GreedyPicks(pizzas, flags, members, dist)
    decreases |members|
  {
    if |members| > 1 {
      var init := members[..|members| - 1];
      assert InList(|pizzas|, init) by {
        assert forall i :: 0 <= i < |init| ==> init[i] == members[i];
      }
      forall j | 1 <= j < |init|
        ensures InList(|pizzas|, init[..j])
          && var d := dist(Query(Chosen(pizzas, init[..j])));
             |d| == |pizzas| && BestChoice(d, Mark(flags, init[..j]), init[j])
      {
        assert init[..j] == members[..j] && init[j] == members[j];
      }
      PicksFromRounds(pizzas, flags, init, dist);
      assert InList(|pizzas|, members[..|members| - 1])
        && var d := dist(Query(Chosen(pizzas, init)));
           |d| == |pizzas| && BestChoice(d, Mark(flags, init), members[|members| - 1]);
    }
  }

  /** The flags after a run of teams, the members of each marked in turn. */
  function RunFlags(flags: seq<bool>, members: seq<seq<int>>): (r: seq<bool>)
    ensures |r| == |flags|
    decreases |members|
  {
    if members == [] then flags else RunFlags(Mark(flags, members[0]), members[1..])
  }

  /** The cursor after a run of teams: the seed of the last one. */
  function RunCurr(flags: seq<bool>, curr: nat, members: seq<seq<int>>): nat
    decreases |members|
  {
    if members == [] then curr else RunCurr(Mark(flags, members[0]), SeedOf(flags, curr), members[1..])
  }

  /** A run of teams as `objective` builds them: team `k` is the greedy team from the
      flags and the cursor the teams before it leave. */
  predicate GreedyRun(pizzas: seq<Pizza>, flags: seq<bool>, curr: nat, members: seq<seq<int>>,
                      teams: seq<seq<nat>>, dist: string -> seq<real>)
  {
    |members| == |teams|
    && forall k {:trigger RunFlags(flags, members[..k])} :: 0 <= k < |teams| ==>
         GreedyTeam(pizzas, RunFlags(flags, members[..k]), RunCurr(flags, curr, members[..k]), members[k], teams[k], dist)
  }

  /** A run followed by a run from where it ended is one run. */
  lemma RunConcat(pizzas: seq<Pizza>, flags: seq<bool>, curr: nat,
                  m1: seq<seq<int>>, t1: seq<seq<nat>>, m2: seq<seq<int>>, t2: seq<seq<nat>>,
                  dist: string -> seq<real>)
    requires GreedyRun(pizzas, flags, curr, m1, t1, dist)
    requires GreedyRun(pizzas, RunFlags(flags, m1), RunCurr(flags, curr, m1), m2, t2, dist)
    ensures GreedyRun(pizzas, flags, curr, m1 + m2, t1 + t2, dist)
    ensures RunFlags(flags, m1 + m2) == RunFlags(RunFlags(flags, m1), m2)
    ensures RunCurr(flags, curr, m1 + m2) == RunCurr(RunFlags(flags, m1), RunCurr(flags, curr, m1), m2)
  {
    RunStateConcat(flags, curr, m1, m2);
    var ms, ts := m1 + m2, t1 + t2;
    forall k | 0 <= k < |ts|
      ensures GreedyTeam(pizzas, RunFlags(flags, ms[..k]), RunCurr(flags, curr, ms[..k]), ms[k], ts[k], dist)
    {
      if k < |m1| {
        assert ms[..k] == m1[..k] && ms[k] == m1[k] && ts[k] == t1[k];
      } else {
        var j := k - |m1|;
        assert ms[..k] == m1 + m2[..j] && ms[k] == m2[j] && ts[k] == t2[j];
        RunStateConcat(flags, curr, m1, m2[..j]);
      }
    }
  }

  lemma {:induction false} RunStateConcat(flags: seq<bool>, curr: nat, m1: seq<seq<int>>, m2: seq<seq<int>>)
    ensures RunFlags(flags, m1 + m2) == RunFlags(RunFlags(flags, m1), m2)
    ensures RunCurr(flags, curr, m1 + m2) == RunCurr(RunFlags(flags, m1), RunCurr(flags, curr, m1), m2)
    decreases |m1|
  {
    if m1 == [] {
      assert m1 + m2 == m2;
    } else {
      RunStateConcat(Mark(flags, m1[0]), SeedOf(flags, curr), m1[1..], m2);
      assert (m1 + m2)[1..] == m1[1..] + m2;
      assert (m1 + m2)[0] == m1[0];
    }
  }

  lemma RunSingle(pizzas: seq<Pizza>, flags: seq<bool>, curr: nat, members: seq<int>, team: seq<nat>,
                  dist: string -> seq<real>)
    requires GreedyTeam(pizzas, flags, curr, members, team, dist)
    ensures GreedyRun(pizzas, flags, curr, [members], [team], dist)
    ensures RunFlags(flags, [members]) == Mark(flags, members)
    ensures RunCurr(flags, curr, [members]) == SeedOf(flags, curr)
  {
    assert [members][1..] == [] && [team][1..] == [];
  }

  /** A run extended by the greedy team from where it ended. */
  lemma RunExtend(pizzas: seq<Pizza>, flags: seq<bool>, curr: nat, members: seq<seq<int>>, teams: seq<seq<nat>>,
                  next: seq<int>, team: seq<nat>, dist: string -> seq<real>)
    requires GreedyRun(pizzas, flags, curr, members, teams, dist)
    requires GreedyTeam(pizzas, RunFlags(flags, members), RunCurr(flags, curr, members), next, team, dist)
    ensures GreedyRun(pizzas, flags, curr, members + [next], teams + [team], dist)
    ensures RunFlags(flags, members + [next]) == Mark(RunFlags(flags, members), next)
    ensures RunCurr(flags, curr, members + [next]) == SeedOf(RunFlags(flags, members), RunCurr(flags, curr, members))
  {
    var f, c := RunFlags(flags, members), RunCurr(flags, curr, members);
    RunSingle(pizzas, f, c, next, team, dist);
    RunConcat(pizzas, flags, curr, members, teams, [next], [team], dist);
  }

  /** A run only ever sets flags. */
  lemma {:induction false} RunCovers(flags: seq<bool>, members: seq<seq<int>>)
    ensures Covers(flags, RunFlags(flags, members))
    decreases |members|
  {
    if members != [] {
      MarkCovers(flags, members[0]);
      RunCovers(Mark(flags, members[0]), members[1..]);
      CoversTrans(flags, Mark(flags, members[0]), RunFlags(flags, members));
    }
  }

  /** Every team of a run is a well-formed record of pizza index values. */
  lemma RunRecords(pizzas: seq<Pizza>, flags: seq<bool>, curr: nat, members: seq<seq<int>>, teams: seq<seq<nat>>,
                   dist: string -> seq<real>)
    requires GreedyRun(pizzas, flags, curr, members, teams, dist)
    ensures TeamRecords(teams, Idxs(pizzas))
  {
    forall k | 0 <= k < |teams|
      ensures TeamRecord(teams[k], Idxs(pizzas))
    {
      var f := RunFlags(flags, members[..k]);
      assert GreedyTeam(pizzas, f, RunCurr(flags, curr, members[..k]), members[k], teams[k], dist);
      ChosenRecord(pizzas, members[k], Chosen(pizzas, members[k]));
    }
  }

  /** Distances that are never negative, as similarity products are. */
  ghost predicate NonNegative(dist: string -> seq<real>)
  {
    forall t, j :: 0 <= j < |dist(t)| ==> dist(t)[j] >= 0.0
  }

  /** With distances that are never negative, the flags, the cursor and the team size
      determine the team: the greedy builder has one outcome. */
  lemma GreedyTeamUnique(pizzas: seq<Pizza>, flags: seq<bool>, curr: nat, m1: seq<int>, team1: seq<nat>,
                         m2: seq<int>, team2: seq<nat>, dist: string -> seq<real>)
    requires NonNegative(dist)
    requires GreedyTeam(pizzas, flags, curr, m1, team1, dist)
    requires GreedyTeam(pizzas, flags, curr, m2, team2, dist)
    requires |m1| == |m2|
    ensures m1 == m2 && team1 == team2
  {
    GreedyPicksUnique(pizzas, flags, m1, m2, dist);
  }

  lemma {:induction false} GreedyPicksUnique(pizzas: seq<Pizza>, flags: seq<bool>, m1: seq<int>, m2: seq<int>,
                                             dist: string -> seq<real>)
    requires NonNegative(dist)
    requires GreedyPicks(pizzas, flags, m1, dist) && GreedyPicks(pizzas, flags, m2, dist)
    requires |m1| == |m2| >= 1 && m1[0] == m2[0]
    ensures m1 == m2
    decreases |m1|
  {
    if |m1| > 1 {
      var i1, i2 := m1[..|m1| - 1], m2[..|m2| - 1];
      assert i1[0] == m1[0] && i2[0] == m2[0];
      GreedyPicksUnique(pizzas, flags, i1, i2, dist);
      assert i1 == i2;
      var d := dist(Query(Chosen(pizzas, i1)));
      assert BestChoice(d, Mark(flags, i1), m2[|m2| - 1]);
      BestChoiceUnique(d, Mark(flags, i1), m1[|m1| - 1], m2[|m2| - 1]);
      assert m1 == i1 + [m1[|m1| - 1]] && m2 == i2 + [m2[|m2| - 1]];
    } else {
      assert m1 == [m1[0]] && m2 == [m2[0]];
    }
  }

  /** With distances that are never negative, the flags, the cursor and the team sizes
      determine the whole run of teams. */
  lemma GreedyRunUnique(pizzas: seq<Pizza>, flags: seq<bool>, curr: nat,
                        m1: seq<seq<int>>, t1: seq<seq<nat>>, m2: seq<seq<int>>, t2: seq<seq<nat>>,
                        dist: string -> seq<real>)
    requires NonNegative(dist)
    requires GreedyRun(pizzas, flags, curr, m1, t1, dist)
    requires GreedyRun(pizzas, flags, curr, m2, t2, dist)
    requires Heads(t1) == Heads(t2)
    ensures m1 == m2 && t1 == t2
  {
    RunTeamSizes(pizzas, flags, curr, m1, t1, dist);
    RunTeamSizes(pizzas, flags, curr, m2, t2, dist);
    HeadsAt(t1);
    HeadsAt(t2);
    RunPrefixUnique(pizzas, flags, curr, m1, t1, m2, t2, dist, |t1|);
    assert m1[..|m1|] == m1 && m2[..|m2|] == m2;
    forall k | 0 <= k < |t1|
      ensures t1[k] == t2[k]
    {
      RunTeamUnique(pizzas, flags, curr, m1, t1, m2, t2, dist, k);
    }
  }

  lemma {:induction false} RunPrefixUnique(pizzas: seq<Pizza>, flags: seq<bool>, curr: nat,
                                           m1: seq<seq<int>>, t1: seq<seq<nat>>, m2: seq<seq<int>>,
                                           t2: seq<seq<nat>>, dist: string -> seq<real>, k: nat)
    requires NonNegative(dist)
    requires GreedyRun(pizzas, flags, curr, m1, t1, dist)
    requires GreedyRun(pizzas, flags, curr, m2, t2, dist)
    requires |t1| == |t2| && forall j :: 0 <= j < |t1| ==> t1[j] != [] && t2[j] != [] && t1[j][0] == t2[j][0]
    requires k <= |t1|
    ensures m1[..k] == m2[..k]
  {
    if k > 0 {
      RunPrefixUnique(pizzas, flags, curr, m1, t1, m2, t2, dist, k - 1);
      RunTeamUnique(pizzas, flags, curr, m1, t1, m2, t2, dist, k - 1);
      PrefixSnoc(m1, k - 1);
      PrefixSnoc(m2, k - 1);
    }
  }

  /** Once the runs agree before team `k`, they agree on team `k`. */
  lemma RunTeamUnique(pizzas: seq<Pizza>, flags: seq<bool>, curr: nat,
                      m1: seq<seq<int>>, t1: seq<seq<nat>>, m2: seq<seq<int>>, t2: seq<seq<nat>>,
                      dist: string -> seq<real>, k: nat)
    requires NonNegative(dist)
    requires GreedyRun(pizzas, flags, curr, m1, t1, dist)
    requires GreedyRun(pizzas, flags, curr, m2, t2, dist)
    requires |t1| == |t2| && k < |t1| && t1[k] != [] && t2[k] != [] && t1[k][0] == t2[k][0]
    requires m1[..k] == m2[..k]
    ensures m1[k] == m2[k] && t1[k] == t2[k]
  {
    var f, c := RunFlags(flags, m1[..k]), RunCurr(flags, curr, m1[..k]);
    assert GreedyTeam(pizzas, f, c, m1[k], t1[k], dist);
    assert GreedyTeam(pizzas, f, c, m2[k], t2[k], dist);
    GreedyTeamUnique(pizzas, f, c, m1[k], t1[k], m2[k], t2[k], dist);
  }

  /** Every team of a run starts with its size, the number of its members. */
  lemma RunTeamSizes(pizzas: seq<Pizza>, flags: seq<bool>, curr: nat, members: seq<seq<int>>,
                     teams: seq<seq<nat>>, dist: string -> seq<real>)
    requires GreedyRun(pizzas, flags, curr, members, teams, dist)
    ensures forall k :: 0 <= k < |teams| ==> teams[k] != [] && teams[k][0] == |members[k]|
  {
    forall k | 0 <= k < |teams|
      ensures teams[k] != [] && teams[k][0] == |members[k]|
    {
      var f, c := RunFlags(flags, members[..k]), RunCurr(flags, curr, members[..k]);
      assert GreedyTeam(pizzas, f, c, members[k], teams[k], dist);
    }
  }

  /** When no team is empty, the heads are the teams' first entries. */
  lemma {:induction false} HeadsAt(teams: seq<seq<nat>>)
    ensures (forall k :: 0 <= k < |teams| ==> teams[k] != []) ==>
      |Heads(teams)| == |teams| && forall k :: 0 <= k < |teams| ==> Heads(teams)[k] == teams[k][0]
  {
    if teams != [] {
      HeadsAt(teams[1..]);
      if forall k :: 0 <= k < |teams| ==> teams[k] != [] {
        assert forall k :: 0 <= k < |teams| - 1 ==> teams[1..][k] == teams[k + 1];
      }
    }
  }

  /** The inner loop of `objective` for one team size `o`: while a team of that size
      still fits, seed it, fill it with `find_matches` and record it. The teams formed
      are the greedy run from the flags and the cursor it starts with. */
  method TeamsOfSize(pizzas: seq<Pizza>, m: nat, o: nat, available: nat, totalUsed: nat, curr: nat,
                     dist: string -> seq<real>)
    returns (teams: seq<seq<nat>>, nowUsed: nat, nowCurr: nat, ghost members: seq<seq<int>>)
    requires |pizzas| == m && Distinct(pizzas) && o >= 1
    requires forall t :: |dist(t)| == |pizzas|
    requires totalUsed <= m && (curr < m || m == 0)
    modifies pizzas
    ensures Heads(teams) == Repeat(o, Fit(m - totalUsed, o, available))
    ensures nowUsed == totalUsed + Sum(Heads(teams)) && nowUsed <= m
    ensures curr <= nowCurr && (nowCurr < m || m == 0)
    ensures GreedyRun(pizzas, old(Used(pizzas)), curr, members, teams, dist)
    ensures Used(pizzas) == RunFlags(old(Used(pizzas)), members)
    ensures nowCurr == RunCurr(old(Used(pizzas)), curr, members)
    ensures TeamRecords(teams, Idxs(pizzas))
    ensures Covers(old(Used(pizzas)), Used(pizzas))
  {
    ghost var c := Fit(m - totalUsed, o, available);
    ghost var start := Used(pizzas);
    teams := [];
    members := [];
    nowUsed := totalUsed;
    nowCurr := curr;
    var i := 0;
    while i < available
      invariant i <= c
      invariant |teams| == i && forall k :: 0 <= k < i ==> teams[k] != [] && teams[k][0] == o
      invariant nowUsed == totalUsed + Sum(Repeat(o, i)) && nowUsed <= m
      invariant i == available ==> i == c
      invariant curr <= nowCurr && (nowCurr < m || m == 0)
      invariant GreedyRun(pizzas, start, curr, members, teams, dist)
      invariant Used(pizzas) == RunFlags(start, members)
      invariant nowCurr == RunCurr(start, curr, members)
    {
      FitStep(m, totalUsed, o, available, i, nowUsed);
      if nowUsed + o > m {
        break;
      }
      var team, seed;
      ghost var next;
      team, seed, next := NextTeam(pizzas, o, nowCurr, dist, start, curr, members, teams);
      teams := teams + [team];
      members := members + [next];
      nowUsed := nowUsed + o;
      nowCurr := seed;
      i := i + 1;
    }
    HeadsAt(teams);
    assert Heads(teams) == Repeat(o, i);
    RunCovers(start, members);
    RunRecords(pizzas, start, curr, members, teams, dist);
  }

  /** `BuildTeam` within a run: the team it builds extends the greedy run the earlier
      passes of the loop formed. */
  method NextTeam(pizzas: seq<Pizza>, o: nat, nowCurr: nat, dist: string -> seq<real>,
                  ghost start: seq<bool>, ghost curr: nat, ghost members: seq<seq<int>>, ghost teams: seq<seq<nat>>)
    returns (team: seq<nat>, seed: nat, ghost next: seq<int>)
    requires nowCurr < |pizzas| && Distinct(pizzas) && o >= 1
    requires forall t :: |dist(t)| == |pizzas|
    requires GreedyRun(pizzas, start, curr, members, teams, dist)
    requires Used(pizzas) == RunFlags(start, members) && nowCurr == RunCurr(start, curr, members)
    modifies pizzas
    ensures GreedyRun(pizzas, start, curr, members + [next], teams + [team], dist)
    ensures Used(pizzas) == RunFlags(start, members + [next])
    ensures seed == RunCurr(start, curr, members + [next]) && nowCurr <= seed < |pizzas|
    ensures team != [] && team[0] == o
  {
    ghost var picks;
    team, seed, picks := BuildTeam(pizzas, o, nowCurr, dist);
    next := [seed] + picks;
    RunExtend(pizzas, start, curr, members, teams, next, team, dist);
  }

  /** One pass of the inner loop of `objective`: seed a team at the first unused pizza
      from `curr` on, fill it with `find_matches`, record it and mark its pizzas. The
      ghost `picks` are the indices `find_matches` returns; the team is the seed
      followed by the pizzas they point at, and exactly those pizzas end up used. */
  method BuildTeam(pizzas: seq<Pizza>, o: nat, curr: nat, dist: string -> seq<real>)
    returns (team: seq<nat>, seed: nat, ghost picks: seq<int>)
    requires curr < |pizzas| && Distinct(pizzas) && o >= 1
    requires forall t :: |dist(t)| == |pizzas|
    modifies pizzas
    ensures seed == SeedOf(old(Used(pizzas)), curr) && curr <= seed < |pizzas|
    ensures |picks| == o - 1 && InList(|pizzas|, [seed] + picks)
    ensures team == TeamEntry(o, Chosen(pizzas, [seed] + picks))
    ensures GreedyTeam(pizzas, old(Used(pizzas)), curr, [seed] + picks, team, dist)
    ensures Used(pizzas) == Mark(old(Used(pizzas)), [seed] + picks)
    ensures TeamRecord(team, Idxs(pizzas))
    ensures Covers(old(Used(pizzas)), Used(pizzas))
  {
    ghost var start := Used(pizzas);
    seed := NextSeed(pizzas, curr);
    ghost var afterSeed := Used(pizzas);
    SeedMarked(start, curr, seed, afterSeed);
    var matches, idxs, queries, seen := FindMatches(pizzas[seed], pizzas, o, dist);
    picks := idxs;
    team := TeamEntry(o, matches);
    TeamFromMatches(pizzas, start, afterSeed, curr, seed, [seed] + idxs, matches, idxs, queries, seen, dist);
    ghost var afterMatches := Used(pizzas);
    MarkUsed(pizzas, idxs);
    MarkTwice(afterSeed, idxs);
    MarkConcat(start, [seed], idxs);
    MarkCovers(start, [seed] + idxs);
  }

  /** The seed scan leaves the flags with the seed marked, whether or not an unused
      pizza was left (if none was, the seed's flag was already set). */
  lemma SeedMarked(start: seq<bool>, curr: nat, seed: nat, after: seq<bool>)
    requires curr <= seed < |start|
    requires var first := FirstUnused(start, curr);
      if first.Some? then seed == first.value && after == start[seed := true]
      else seed == curr && after == start
    ensures seed == SeedOf(start, curr) && after == Mark(start, [seed])
  {
    assert [seed][..0] == [];
    if FirstUnused(start, curr).None? {
      assert start[seed := true] == start;
    }
  }

  /** What `find_matches` returns about its picks: one pizza per pick after the seed,
      each the pizza its Python index points at. */
  predicate MatchesAt(pizzas: seq<Pizza>, matches: seq<Pizza>, idxs: seq<int>)
  {
    |pizzas| > 0 && |matches| == |idxs| + 1
    && forall k :: 0 <= k < |idxs| ==>
         -1 <= idxs[k] < |pizzas| && matches[k + 1] == pizzas[Position(|pizzas|, idxs[k])]
  }

  /** What `find_matches` records about its rounds: round `k` described the first
      `k + 1` matches, saw the flags the earlier picks left, and took the scan's choice. */
  predicate RoundsScanned(pizzas: seq<Pizza>, flags: seq<bool>, matches: seq<Pizza>, idxs: seq<int>,
                          queries: seq<string>, seen: seq<seq<bool>>, dist: string -> seq<real>)
  {
    |matches| == |idxs| + 1 && |queries| == |idxs| && |seen| == |idxs|
    && (forall k :: 0 <= k < |idxs| ==> queries[k] == Query(matches[..k + 1]))
    && seen == MarkHistory(flags, idxs)
    && forall k :: 0 <= k < |idxs| ==>
         |seen[k]| == |pizzas| && |dist(queries[k])| == |pizzas| && BestChoice(dist(queries[k]), seen[k], idxs[k])
  }

  /** What `find_matches` promises, seeded at the seed the scan found, is one greedy
      team. */
  lemma TeamFromMatches(pizzas: seq<Pizza>, start: seq<bool>, afterSeed: seq<bool>, curr: nat, seed: nat,
                        members: seq<int>, matches: seq<Pizza>, idxs: seq<int>, queries: seq<string>,
                        seen: seq<seq<bool>>, dist: string -> seq<real>)
    requires seed < |pizzas| && |start| == |pizzas| && forall t :: |dist(t)| == |pizzas|
    requires seed == SeedOf(start, curr) && afterSeed == Mark(start, [seed])
    requires members == [seed] + idxs
    requires MatchesAt(pizzas, matches, idxs) && matches[0] == pizzas[seed]
    requires RoundsScanned(pizzas, afterSeed, matches, idxs, queries, seen, dist)
    ensures InList(|pizzas|, members) && Chosen(pizzas, members) == matches
    ensures GreedyTeam(pizzas, start, curr, members, TeamEntry(|matches|, matches), dist)
    ensures TeamRecord(TeamEntry(|matches|, matches), Idxs(pizzas))
  {
    MatchesChosen(pizzas, seed, matches, idxs);
    PicksOfMatches(pizzas, start, afterSeed, seed, members, matches, idxs, queries, seen, dist);
    AssembleTeam(pizzas, start, curr, members, matches, TeamEntry(|matches|, matches), dist);
    ChosenRecord(pizzas, members, matches);
  }

  /** A team record of chosen pizzas lists existing index values. */
  lemma ChosenRecord(pizzas: seq<Pizza>, members: seq<int>, matches: seq<Pizza>)
    requires InList(|pizzas|, members) && Chosen(pizzas, members) == matches
    ensures TeamRecord(TeamEntry(|matches|, matches), Idxs(pizzas))
  {
    var team := TeamEntry(|matches|, matches);
    forall j | 1 <= j < |team|
      ensures team[j] in Idxs(pizzas)
    {
      var p := Position(|pizzas|, members[j - 1]);
      assert team[j] == pizzas[p].idx;
    }
  }

  lemma AssembleTeam(pizzas: seq<Pizza>, flags: seq<bool>, curr: nat, members: seq<int>, matches: seq<Pizza>,
                     team: seq<nat>, dist: string -> seq<real>)
    requires GreedyPicks(pizzas, flags, members, dist) && |members| >= 1 && members[0] == SeedOf(flags, curr)
    requires Chosen(pizzas, members) == matches && team == TeamEntry(|matches|, matches)
    ensures GreedyTeam(pizzas, flags, curr, members, team, dist)
  {
  }

  /** The rounds of `find_matches` make its picks the greedy picks of the team. */
  lemma PicksOfMatches(pizzas: seq<Pizza>, start: seq<bool>, afterSeed: seq<bool>, seed: nat,
                       members: seq<int>, matches: seq<Pizza>, idxs: seq<int>, queries: seq<string>,
                       seen: seq<seq<bool>>, dist: string -> seq<real>)
    requires |start| == |pizzas| && forall t :: |dist(t)| == |pizzas|
    requires afterSeed == Mark(start, [seed]) && members == [seed] + idxs
    requires InList(|pizzas|, members) && Chosen(pizzas, members) == matches
    requires RoundsScanned(pizzas, afterSeed, matches, idxs, queries, seen, dist)
    ensures GreedyPicks(pizzas, start, members, dist)
  {
    forall k | 1 <= k < |members|
      ensures InList(|pizzas|, members[..k])
        && var d := dist(Query(Chosen(pizzas, members[..k])));
           |d| == |pizzas| && BestChoice(d, Mark(start, members[..k]), members[k])
    {
      var j := k - 1;
      assert queries[j] == Query(matches[..j + 1]);
      assert |seen[j]| == |pizzas| && BestChoice(dist(queries[j]), seen[j], idxs[j]);
      MarkHistoryAt(afterSeed, idxs, j);
      RoundFlags(start, seed, idxs, members, k);
      MatchRound(pizzas, start, members, matches, queries[k - 1], seen[k - 1], dist, k);
    }
    PicksFromRounds(pizzas, start, members, dist);
  }

  /** The pizzas `find_matches` returns are those its seed and picks point at. */
  lemma MatchesChosen(pizzas: seq<Pizza>, seed: nat, matches: seq<Pizza>, idxs: seq<int>)
    requires seed < |pizzas|
    requires MatchesAt(pizzas, matches, idxs) && matches[0] == pizzas[seed]
    ensures InList(|pizzas|, [seed] + idxs) && Chosen(pizzas, [seed] + idxs) == matches
  {
    var members := [seed] + idxs;
    forall k | 0 <= k < |members|
      ensures -1 <= members[k] < |pizzas| && 0 <= Position(|pizzas|, members[k])
    {
      if k > 0 {
        assert members[k] == idxs[k - 1];
      }
    }
    var c := Chosen(pizzas, members);
    forall k | 0 <= k < |matches|
      ensures c[k] == matches[k]
    {
      if k > 0 {
        assert members[k] == idxs[k - 1];
      }
    }
  }

  /** Round `k` of `find_matches`, seen from the whole team: the pick is the scan's
      choice for the members before it, under the flags they leave set. */
  lemma MatchRound(pizzas: seq<Pizza>, start: seq<bool>, members: seq<int>, matches: seq<Pizza>,
                   query: string, flags: seq<bool>, dist: string -> seq<real>, k: nat)
    requires InList(|pizzas|, members) && Chosen(pizzas, members) == matches
    requires 1 <= k < |members| && |start| == |pizzas| && |dist(query)| == |pizzas|
    requires query == Query(matches[..k])
    requires flags == Mark(start, members[..k])
    requires |flags| == |pizzas| && BestChoice(dist(query), flags, members[k])
    ensures InList(|pizzas|, members[..k])
    ensures var d := dist(Query(Chosen(pizzas, members[..k])));
      |d| == |pizzas| && BestChoice(d, Mark(start, members[..k]), members[k])
  {
    var pre := members[..k];
    assert InList(|pizzas|, pre) by {
      assert forall i :: 0 <= i < k ==> pre[i] == members[i];
    }
    var cs := Chosen(pizzas, pre);
    assert cs == matches[..k] by {
      forall i | 0 <= i < k
        ensures cs[i] == matches[i]
      {
        assert pre[i] == members[i];
      }
    }
  }

  /** Before round `k`, the flags are those with the seed and the first `k - 1` picks
      marked. */
  lemma RoundFlags(start: seq<bool>, seed: nat, idxs: seq<int>, members: seq<int>, k: nat)
    requires members == [seed] + idxs && 1 <= k <= |idxs|
    ensures members[k] == idxs[k - 1]
    ensures Mark(start, members[..k]) == Mark(Mark(start, [seed]), idxs[..k - 1])
  {
    assert members[..k] == [seed] + idxs[..k - 1];
    MarkConcat(start, [seed], idxs[..k - 1]);
  }

  /** Marking the same picks twice is marking them once. */
  lemma MarkTwice(flags: seq<bool>, picks: seq<int>)
    ensures Mark(Mark(flags, picks), picks) == Mark(flags, picks)
  {
    forall j | 0 <= j < |flags|
      ensures Mark(Mark(flags, picks), picks)[j] == Mark(flags, picks)[j]
    {
      MarkSets(Mark(flags, picks), picks, j);
      MarkSets(flags, picks, j);
    }
  }

  /** Marking two lists of picks in turn is marking their concatenation. */
  lemma {:induction false} MarkConcat(flags: seq<bool>, a: seq<int>, b: seq<int>)
    ensures Mark(flags, a + b) == Mark(Mark(flags, a), b)
    decreases |b|
  {
    if b == [] {
      assert a + b == a;
    } else {
      var init := b[..|b| - 1];
      MarkConcat(flags, a, init);
      assert (a + b)[..|a + b| - 1] == a + init;
      assert (a + b)[|a + b| - 1] == b[|b| - 1];
    }
  }

  lemma CoversTrans(a: seq<bool>, b: seq<bool>, c: seq<bool>)
    requires Covers(a, b) && Covers(b, c)
    ensures Covers(a, c)
  {
  }

  lemma HeadsSnoc(teams: seq<seq<nat>>, team: seq<nat>)
    requires team != []
    ensures Heads(teams + [team]) == Heads(teams) + [team[0]]
  {
    HeadsAppend(teams, [team]);
  }

  lemma {:induction false} HeadsAppend(a: seq<seq<nat>>, b: seq<seq<nat>>)
    requires b != [] && b[0] != [] && |b| == 1
    ensures Heads(a + b) == Heads(a) + [b[0][0]]
  {
    if a != [] {
      assert (a + b)[1..] == a[1..] + b;
      HeadsAppend(a[1..], b);
    } else {
      assert a + b == b;
    }
  }

  /** The team loop of `objective`: for each size in `ordering`, as many teams as the
      counts offer and the pizzas allow, each recorded as its size followed by its
      pizzas' index values. The sizes of the recorded teams are exactly what
      `make_draw_arr` draws for the same quota, so they never need more than the `m`
      pizzas, and a size that stops fitting ends that size only. The teams are the
      greedy run from the flags the objective starts with and the first pizza: the
      ghost `members` give, per team, the seed and the picks of `find_matches`, and
      the flags end with exactly those pizzas marked. */
  method Objective(pizzas: seq<Pizza>, m: nat, t2: nat, t3: nat, t4: nat, ordering: seq<nat>,
                   dist: string -> seq<real>)
    returns (solution: seq<seq<nat>>, ghost members: seq<seq<int>>)
    requires |pizzas| == m && Distinct(pizzas)
    requires forall t :: |dist(t)| == |pizzas|
    requires forall k :: 0 <= k < |ordering| ==> ordering[k] in TeamCounts(t2, t3, t4)
    modifies pizzas
    ensures Heads(solution) == DrawArr(m, ordering, TeamCounts(t2, t3, t4))
    ensures Sum(Heads(solution)) <= m
    ensures GreedyRun(pizzas, old(Used(pizzas)), 0, members, solution, dist)
    ensures Used(pizzas) == RunFlags(old(Used(pizzas)), members)
    ensures TeamRecords(solution, Idxs(pizzas))
    ensures Covers(old(Used(pizzas)), Used(pizzas))
  {
    var counts := TeamCounts(t2, t3, t4);
    ghost var target := DrawArr(m, ordering, counts);
    ghost var start := Used(pizzas);
    solution := [];
    members := [];
    var totalUsed: nat := 0;
    var curr: nat := 0;
    for j := 0 to |ordering|
      invariant totalUsed <= m && (curr < m || m == 0)
      invariant Heads(solution) + DrawArr(m - totalUsed, ordering[j..], counts) == target
      invariant GreedyRun(pizzas, start, 0, members, solution, dist)
      invariant Used(pizzas) == RunFlags(start, members)
      invariant curr == RunCurr(start, 0, members)
    {
      var o := ordering[j];
      var teams, nowUsed, nowCurr;
      ghost var ms;
      teams, nowUsed, nowCurr, ms := TeamsOfSize(pizzas, m, o, counts[o], totalUsed, curr, dist);
      RunConcat(pizzas, start, 0, members, solution, ms, teams, dist);
      TeamsStep(target, solution, teams, m, totalUsed, nowUsed, ordering, j, counts);
      solution := solution + teams;
      members := members + ms;
      totalUsed := nowUsed;
      curr := nowCurr;
    }
    assert ordering[|ordering|..] == [];
    DrawArrFits(m, ordering, counts);
    RunCovers(start, members);
    RunRecords(pizzas, start, 0, members, solution, dist);
  }

  /** One pass of the outer loop of `objective` keeps the recorded team sizes followed
      by what is still to be drawn equal to the whole draw. */
  lemma TeamsStep(target: seq<nat>, solution: seq<seq<nat>>, teams: seq<seq<nat>>, total: nat, used: nat,
                  nowUsed: nat, ordering: seq<nat>, j: nat, counts: map<nat, nat>)
    requires j < |ordering| && used <= total
    requires forall k :: 0 <= k < |ordering| ==> ordering[k] in counts
    requires Heads(solution) + DrawArr(total - used, ordering[j..], counts) == target
    requires Heads(teams) == Repeat(ordering[j], Fit(total - used, ordering[j], counts[ordering[j]]))
    requires nowUsed == used + Sum(Heads(teams))
    ensures nowUsed <= total
    ensures Heads(solution + teams) + DrawArr(total - nowUsed, ordering[j + 1..], counts) == target
  {
    DrawStep(target, Heads(solution), total, used, ordering, j, counts);
    HeadsConcat(solution, teams);
  }

  lemma {:induction false} HeadsConcat(a: seq<seq<nat>>, b: seq<seq<nat>>)
    ensures Heads(a + b) == Heads(a) + Heads(b)
  {
    if a != [] {
      assert (a + b)[1..] == a[1..] + b;
      HeadsConcat(a[1..], b);
    } else {
      assert a + b == b;
    }
  }
}
