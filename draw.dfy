/** The quota splitter and the slicer of the practice round: `make_draw_arr` turns
    per-size team counts into a list of team sizes that fits in the pizza count, and
    `assign_pizzas` cuts a pizza order into consecutive teams of those sizes. */
module Draw {
  import opened Basics

  /** `count` copies of `v`. */
  function Repeat(v: nat, count: nat): (r: seq<nat>)
    ensures |r| == count
    ensures forall k :: 0 <= k < count ==> r[k] == v
  {
    if count == 0 then [] else [v] + Repeat(v, count - 1)
  }

  lemma {:induction false} SumRepeat(v: nat, count: nat)
    ensures Sum(Repeat(v, count)) == count * v
  {
    if count > 0 {
      SumRepeat(v, count - 1);
    }
  }

  /** How many teams of size `v` the inner loop of `make_draw_arr` appends when `room`
      pizzas are left and `available` teams of that size exist: as many as fit, but no
      more than exist. A shortfall means one more team would not have fitted. */
  function Fit(room: nat, v: nat, available: nat): (c: nat)
    ensures c <= available
    ensures c * v <= room
    ensures c < available ==> room < (c + 1) * v
  {
    if v == 0 then available
    else
      var q := room / v;
      DivisionBounds(room, v);
      Min(available, q)
  }

  lemma DivisionBounds(room: nat, v: nat)
    requires v > 0
    ensures (room / v) * v <= room < (room / v + 1) * v
  {
    var q, r := room / v, room % v;
    assert room == q * v + r;
    assert (q + 1) * v == q * v + v;
  }

  /** Growing one team at a time from `used` of `total` pizzas, with `now` used after
      `i` teams of size `v`: the next team fits exactly while `i` is below the count
      `Fit` gives, and a team that does not fit means `i` has reached it. */
  lemma FitStep(total: nat, used: nat, v: nat, available: nat, i: nat, now: nat)
    requires used <= total && i < available
    requires i <= Fit(total - used, v, available)
    requires now == used + Sum(Repeat(v, i))
    ensures now + v <= total ==> i < Fit(total - used, v, available)
    ensures now + v > total ==> i == Fit(total - used, v, available)
    ensures Sum(Repeat(v, i + 1)) == Sum(Repeat(v, i)) + v
  {
    var room, c := total - used, Fit(total - used, v, available);
    SumRepeat(v, i);
    assert Sum(Repeat(v, i + 1)) == v + Sum(Repeat(v, i));
    var next := (i + 1) * v;
    assert next == i * v + v;
    if i < c {
      ScaleLe(i + 1, c, v);
      assert next <= room;
    } else {
      assert c < available && room < (c + 1) * v;
      assert room < next;
    }
  }

  /** Scaling by a count keeps the order of counts. */
  lemma ScaleLe(a: nat, b: nat, v: nat)
    requires a <= b
    ensures a * v <= b * v
  {
    assert b * v == a * v + (b - a) * v;
  }

  /** The sizes `make_draw_arr` draws: for each size in `order`, as many teams of that
      size as `sizes` offers and the remaining pizzas allow, then the next size. */
  function DrawArr(room: nat, order: seq<nat>, sizes: map<nat, nat>): seq<nat>
    requires forall k :: 0 <= k < |order| ==> order[k] in sizes
  {
    if order == [] then []
    else
      var c := Fit(room, order[0], sizes[order[0]]);
      Repeat(order[0], c) + DrawArr(room - c * order[0], order[1..], sizes)
  }

  /** The loop body of `make_draw_arr` for one size. */
  method DrawSize(total: nat, used: nat, v: nat, available: nat) returns (drawn: seq<nat>, nowUsed: nat)
    requires used <= total
    ensures drawn == Repeat(v, Fit(total - used, v, available))
    ensures nowUsed == used + Sum(drawn)
  {
    ghost var c := Fit(total - used, v, available);
    drawn := [];
    nowUsed := used;
    var i := 0;
    while i < available
      invariant i <= c
      invariant drawn == Repeat(v, i)
      invariant nowUsed == used + Sum(Repeat(v, i))
      invariant i == available ==> i == c
    {
      FitStep(total, used, v, available, i, nowUsed);
      if nowUsed + v <= total {
        drawn := drawn + [v];
        nowUsed := nowUsed + v;
      } else {
        break;
      }
      i := i + 1;
    }
  }

  /** `make_draw_arr`: walks `order`, appending each size while the running total
      stays within `total`; a size that no longer fits ends that size only. */
  method MakeDrawArr(total: nat, order: seq<nat>, sizes: map<nat, nat>) returns (draw: seq<nat>)
    requires forall k :: 0 <= k < |order| ==> order[k] in sizes
    ensures draw == DrawArr(total, order, sizes)
  {
    var totalUsed: nat := 0;
    draw := [];
    ghost var target := DrawArr(total, order, sizes);
    for j := 0 to |order|
      invariant totalUsed <= total
      invariant draw + DrawArr(total - totalUsed, order[j..], sizes) == target
    {
      var val := order[j];
      var teamSize := sizes[val];
      var drawn, nowUsed := DrawSize(total, totalUsed, val, teamSize);
      DrawStep(target, draw, total, totalUsed, order, j, sizes);
      draw := draw + drawn;
      totalUsed := nowUsed;
    }
  }

  /** One pass of the outer loop of `make_draw_arr` keeps the drawn sizes followed by
      what is still to be drawn equal to the whole draw. */
  lemma DrawStep(target: seq<nat>, draw: seq<nat>, total: nat, used: nat, order: seq<nat>, j: nat, sizes: map<nat, nat>)
    requires j < |order| && used <= total
    requires forall k :: 0 <= k < |order| ==> order[k] in sizes
    requires draw + DrawArr(total - used, order[j..], sizes) == target
    ensures var drawn := Repeat(order[j], Fit(total - used, order[j], sizes[order[j]]));
      used + Sum(drawn) <= total
      && (draw + drawn) + DrawArr(total - (used + Sum(drawn)), order[j + 1..], sizes) == target
  {
    var room := total - used;
    var c := Fit(room, order[j], sizes[order[j]]);
    var drawn, rest := Repeat(order[j], c), DrawArr(room - c * order[j], order[j + 1..], sizes);
    SumRepeat(order[j], c);
    assert total - (used + Sum(drawn)) == room - c * order[j];
    DrawArrUnfold(room, order, j, sizes);
    assert (draw + drawn) + rest == draw + (drawn + rest);
  }

  /** The draw from position `j` of `order` on: the teams of size `order[j]`, then the
      draw of the later sizes from the pizzas left. */
  lemma DrawArrUnfold(room: nat, order: seq<nat>, j: nat, sizes: map<nat, nat>)
    requires j < |order|
    requires forall k :: 0 <= k < |order| ==> order[k] in sizes
    ensures var c := Fit(room, order[j], sizes[order[j]]);
      DrawArr(room, order[j..], sizes) == Repeat(order[j], c) + DrawArr(room - c * order[j], order[j + 1..], sizes)
  {
    assert order[j..][0] == order[j];
    assert order[j..][1..] == order[j + 1..];
  }

  /** The drawn sizes never need more pizzas than there are. */
  lemma {:induction false} DrawArrFits(room: nat, order: seq<nat>, sizes: map<nat, nat>)
    requires forall k :: 0 <= k < |order| ==> order[k] in sizes
    ensures Sum(DrawArr(room, order, sizes)) <= room
  {
    if order != [] {
      var c := Fit(room, order[0], sizes[order[0]]);
      DrawArrFits(room - c * order[0], order[1..], sizes);
      SumAppend(Repeat(order[0], c), DrawArr(room - c * order[0], order[1..], sizes));
      SumRepeat(order[0], c);
    }
  }

  /** A size listed once in `order` is drawn at most as often as `sizes` offers, and a
      size not listed is never drawn. */
  lemma {:induction false} DrawArrMultiplicity(room: nat, order: seq<nat>, sizes: map<nat, nat>, v: nat)
    requires forall k :: 0 <= k < |order| ==> order[k] in sizes
    requires forall i, j :: 0 <= i < j < |order| ==> order[i] != order[j]
    ensures multiset(DrawArr(room, order, sizes))[v] <= (if v in order then sizes[v] else 0)
  {
    if order != [] {
      var c := Fit(room, order[0], sizes[order[0]]);
      var first, rest := Repeat(order[0], c), DrawArr(room - c * order[0], order[1..], sizes);
      DistinctTail(order);
      DrawArrMultiplicity(room - c * order[0], order[1..], sizes, v);
      RepeatMultiplicity(order[0], c, v);
      assert DrawArr(room, order, sizes) == first + rest;
      assert multiset(first + rest) == multiset(first) + multiset(rest);
      var m := multiset(DrawArr(room, order, sizes))[v];
      var inFirst, inRest: multiset<nat> := multiset(first), multiset(rest);
      assert m == inFirst[v] + inRest[v];
      if v == order[0] {
        assert v !in order[1..] && v in order;
        assert m <= sizes[v];
      } else {
        assert (v in order) == (v in order[1..]);
      }
    }
  }

  /** The first entry of a list without repeats is not in its tail, and any other
      value is in the list exactly when it is in the tail. */
  lemma DistinctTail(order: seq<nat>)
    requires order != []
    requires forall i, j :: 0 <= i < j < |order| ==> order[i] != order[j]
    ensures order[0] !in order[1..]
    ensures forall v :: v != order[0] ==> (v in order <==> v in order[1..])
    ensures forall i, j :: 0 <= i < j < |order[1..]| ==> order[1..][i] != order[1..][j]
  {
    assert order == [order[0]] + order[1..];
    forall k | 0 <= k < |order[1..]|
      ensures order[1..][k] != order[0]
    {
      assert order[1..][k] == order[k + 1];
    }
  }

  lemma {:induction false} RepeatMultiplicity(u: nat, count: nat, v: nat)
    ensures multiset(Repeat(u, count))[v] == (if u == v then count else 0)
  {
    if count > 0 {
      RepeatMultiplicity(u, count - 1, v);
      assert multiset(Repeat(u, count)) == multiset{u} + multiset(Repeat(u, count - 1));
    }
  }

  /** The teams `assign_pizzas` emits from position `curr` of `sorted` on: a team of
      size `v` is `[v]` followed by the next `v` pizzas, emitted only when they all
      exist; the position advances by `v` either way. */
  function Assign(sorted: seq<nat>, draw: seq<nat>, curr: nat): seq<seq<nat>>
  {
    if draw == [] then []
    else
      var v := draw[0];
      (if curr + v <= |sorted| then [[v] + sorted[curr..curr + v]] else [])
        + Assign(sorted, draw[1..], curr + v)
  }

  /** `assign_pizzas` (its score comes from a scorer that is not part of this model). */
  method AssignPizzas(sorted: seq<nat>, draw: seq<nat>) returns (solution: seq<seq<nat>>)
    ensures solution == Assign(sorted, draw, 0)
  {
    solution := [];
    var curr: nat := 0;
    ghost var target := Assign(sorted, draw, 0);
    assert draw[0..] == draw;
    for j := 0 to |draw|
      invariant solution + Assign(sorted, draw[j..], curr) == target
    {
      AssignLoopStep(sorted, draw, j, curr, solution, target);
      var val := draw[j];
      var endIdx := curr + val;
      if endIdx <= |sorted| {
        var choices := sorted[curr..endIdx];
        var newEntry := [val] + choices;
        solution := solution + [newEntry];
      }
      curr := curr + val;
    }
  }

  /** One pass of the loop of `assign_pizzas` keeps the emitted teams followed by the
      teams still to come equal to all the teams. */
  lemma AssignLoopStep(sorted: seq<nat>, draw: seq<nat>, j: nat, curr: nat, solution: seq<seq<nat>>, target: seq<seq<nat>>)
    requires j < |draw|
    requires solution + Assign(sorted, draw[j..], curr) == target
    ensures var v := draw[j];
      (if curr + v <= |sorted| then solution + [[v] + sorted[curr..curr + v]] else solution)
        + Assign(sorted, draw[j + 1..], curr + v) == target
  {
    var v := draw[j];
    var later := Assign(sorted, draw[j + 1..], curr + v);
    AssignUnfold(sorted, draw, j, curr);
    if curr + v <= |sorted| {
      var team := [v] + sorted[curr..curr + v];
      assert solution + ([team] + later) == (solution + [team]) + later;
    } else {
      assert [] + later == later;
    }
  }

  /** The teams from position `j` of `draw` on: the team of size `draw[j]` when its
      pizzas all exist, then the teams of the later sizes. */
  lemma AssignUnfold(sorted: seq<nat>, draw: seq<nat>, j: nat, curr: nat)
    requires j < |draw|
    ensures var v := draw[j];
      Assign(sorted, draw[j..], curr)
        == (if curr + v <= |sorted| then [[v] + sorted[curr..curr + v]] else []) + Assign(sorted, draw[j + 1..], curr + v)
  {
    assert draw[j..][0] == draw[j];
    assert draw[j..][1..] == draw[j + 1..];
  }

  /** The team sizes heading the teams. */
  function Heads(teams: seq<seq<nat>>): seq<nat>
  {
    if teams == [] then []
    else (if teams[0] == [] then [] else [teams[0][0]]) + Heads(teams[1..])
  }

  /** The pizzas of the teams, in order. */
  function Members(teams: seq<seq<nat>>): seq<nat>
  {
    if teams == [] then []
    else (if teams[0] == [] then [] else teams[0][1..]) + Members(teams[1..])
  }

  /** Once the position is past the end, no further team is emitted. */
  lemma {:induction false} AssignPastEnd(sorted: seq<nat>, draw: seq<nat>, curr: nat)
    requires curr > |sorted|
    ensures Assign(sorted, draw, curr) == []
  {
    if draw != [] {
      AssignPastEnd(sorted, draw[1..], curr + draw[0]);
    }
  }

  /** The emitted teams are the longest prefix of `draw` whose pizzas all exist, and
      their members are the consecutive pizzas of `sorted` from `curr` on, in order:
      disjoint slices, none skipped, none repeated. */
  lemma AssignConsecutive(sorted: seq<nat>, draw: seq<nat>, curr: nat)
    ensures var teams := Assign(sorted, draw, curr);
      |teams| <= |draw| && Heads(teams) == draw[..|teams|]
    ensures var teams := Assign(sorted, draw, curr);
      |teams| < |draw| ==> curr + Sum(draw[..|teams| + 1]) > |sorted|
    ensures var teams := Assign(sorted, draw, curr);
      teams != [] ==> (curr + Sum(Heads(teams)) <= |sorted| && Members(teams) == sorted[curr..curr + Sum(Heads(teams))])
  {
    AssignHeads(sorted, draw, curr);
    AssignMaximal(sorted, draw, curr);
    AssignMembers(sorted, draw, curr);
  }

  /** The sizes of the emitted teams are a prefix of `draw`. */
  lemma {:induction false} AssignHeads(sorted: seq<nat>, draw: seq<nat>, curr: nat)
    ensures var teams := Assign(sorted, draw, curr);
      |teams| <= |draw| && Heads(teams) == draw[..|teams|]
  {
    if draw != [] {
      var v := draw[0];
      if curr + v <= |sorted| {
        AssignHeads(sorted, draw[1..], curr + v);
        var rest := Assign(sorted, draw[1..], curr + v);
        AssignFirstFits(sorted, draw, curr);
        HeadsCons([v] + sorted[curr..curr + v], rest);
        StepPrefix(draw, |rest|);
      } else {
        AssignFirstMissing(sorted, draw, curr);
        assert Heads([]) == draw[..0];
      }
    }
  }

  /** The emitted teams stop only at a team whose pizzas would run past the end. */
  lemma {:induction false} AssignMaximal(sorted: seq<nat>, draw: seq<nat>, curr: nat)
    ensures var teams := Assign(sorted, draw, curr);
      |teams| < |draw| ==> curr + Sum(draw[..|teams| + 1]) > |sorted|
  {
    if draw != [] {
      var v := draw[0];
      if curr + v <= |sorted| {
        AssignMaximal(sorted, draw[1..], curr + v);
        var rest := Assign(sorted, draw[1..], curr + v);
        AssignFirstFits(sorted, draw, curr);
        assert |Assign(sorted, draw, curr)| == |rest| + 1;
        if |rest| < |draw[1..]| {
          StepPrefix(draw, |rest|);
        }
      } else {
        AssignFirstMissing(sorted, draw, curr);
      }
    }
  }

  /** The members of the emitted teams are the pizzas of `sorted` from `curr` on. */
  lemma {:induction false} AssignMembers(sorted: seq<nat>, draw: seq<nat>, curr: nat)
    ensures var teams := Assign(sorted, draw, curr);
      teams != [] ==> (curr + Sum(Heads(teams)) <= |sorted| && Members(teams) == sorted[curr..curr + Sum(Heads(teams))])
  {
    if draw != [] {
      var v := draw[0];
      if curr + v <= |sorted| {
        AssignMembers(sorted, draw[1..], curr + v);
        var rest := Assign(sorted, draw[1..], curr + v);
        var first := [v] + sorted[curr..curr + v];
        AssignFirstFits(sorted, draw, curr);
        assert first[0] == v && first[1..] == sorted[curr..curr + v];
        HeadsCons(first, rest);
        MembersCons(first, rest);
        if rest == [] {
          assert Heads(rest) == [] && Members(rest) == [] && Sum(Heads(rest)) == 0;
        }
        StepMembers(sorted, curr, v, Heads(rest), Members(rest));
        var teams := Assign(sorted, draw, curr);
        assert Heads(teams) == [v] + Heads(rest);
        assert Members(teams) == sorted[curr..curr + v] + Members(rest);
      } else {
        AssignFirstMissing(sorted, draw, curr);
      }
    }
  }

  /** When the first team does not fit, no team is emitted at all. */
  lemma AssignFirstMissing(sorted: seq<nat>, draw: seq<nat>, curr: nat)
    requires draw != [] && curr + draw[0] > |sorted|
    ensures Assign(sorted, draw, curr) == []
    ensures curr + Sum(draw[..1]) > |sorted|
  {
    AssignPastEnd(sorted, draw[1..], curr + draw[0]);
    assert draw[..1] == [draw[0]];
    assert Sum([draw[0]]) == draw[0] + Sum([]);
  }

  /** The teams when the first one fits: that team, then the teams after it. */
  lemma AssignFirstFits(sorted: seq<nat>, draw: seq<nat>, curr: nat)
    requires draw != [] && curr + draw[0] <= |sorted|
    ensures var v := draw[0];
      Assign(sorted, draw, curr) == [[v] + sorted[curr..curr + v]] + Assign(sorted, draw[1..], curr + v)
  {
  }

  lemma HeadsCons(team: seq<nat>, rest: seq<seq<nat>>)
    requires team != []
    ensures Heads([team] + rest) == [team[0]] + Heads(rest)
  {
    assert ([team] + rest)[1..] == rest;
  }

  lemma MembersCons(team: seq<nat>, rest: seq<seq<nat>>)
    requires team != []
    ensures Members([team] + rest) == team[1..] + Members(rest)
  {
    assert ([team] + rest)[1..] == rest;
  }

  /** Prefixes of `draw` past its first entry: that entry, then prefixes of the tail. */
  lemma StepPrefix(draw: seq<nat>, n: nat)
    requires draw != [] && n <= |draw[1..]|
    ensures draw[..n + 1] == [draw[0]] + draw[1..][..n]
    ensures n < |draw[1..]| ==> draw[..n + 2] == [draw[0]] + draw[1..][..n + 1]
    ensures n < |draw[1..]| ==> Sum(draw[..n + 2]) == draw[0] + Sum(draw[1..][..n + 1])
  {
    if n < |draw[1..]| {
      assert draw[..n + 2] == [draw[0]] + draw[1..][..n + 1];
      assert ([draw[0]] + draw[1..][..n + 1])[1..] == draw[1..][..n + 1];
    }
  }

  /** The members of the first team followed by those of the rest are consecutive. */
  lemma StepMembers(sorted: seq<nat>, curr: nat, v: nat, heads: seq<nat>, members: seq<nat>)
    requires curr + v + Sum(heads) <= |sorted| && members == sorted[curr + v..curr + v + Sum(heads)]
    ensures curr + Sum([v] + heads) <= |sorted|
    ensures sorted[curr..curr + v] + members == sorted[curr..curr + Sum([v] + heads)]
  {
    assert ([v] + heads)[1..] == heads;
    assert sorted[curr..curr + v] + sorted[curr + v..curr + v + Sum(heads)] == sorted[curr..curr + v + Sum(heads)];
  }

  /** Every emitted team is its size followed by that many pizzas. */
  lemma {:induction false} AssignTeamShape(sorted: seq<nat>, draw: seq<nat>, curr: nat)
    ensures forall k :: 0 <= k < |Assign(sorted, draw, curr)| ==>
      var team := Assign(sorted, draw, curr)[k]; |team| >= 1 && |team| == team[0] + 1
  {
    if draw != [] {
      AssignTeamShape(sorted, draw[1..], curr + draw[0]);
    }
  }
}
