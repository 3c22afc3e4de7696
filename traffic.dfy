/** Vocabulary shared by the traffic-signalling solvers: the streets and cars of an
    instance, and the per-intersection schedule records every solver produces. */
module Traffic {
  import opened Basics

  /** One street line of an instance, `B E NAME L`: the intersections it starts and
      ends at, its name and the time a car needs to traverse it. */
  datatype StreetInfo = StreetInfo(start: int, end: int, name: string, length: int)

  /** One car line, `P NAME_1 ... NAME_P`: the declared path length and the names of
      the streets the car drives along, in order. */
  datatype Car = Car(pathLength: int, path: seq<string>)

  /** A green light in a schedule: the street and for how long it stays green. */
  datatype Light = Light(name: string, time: int)

  /** The record a solver emits for one intersection: `[id, count, (name, time), ...]`.
      `count` is whatever the solver declared; it is not derived from `lights`. */
  datatype Record = Record(id: int, count: int, lights: seq<Light>)

  /** The ways a solver gives up on malformed input: a car path names a street that
      is not in the street table (a `KeyError`), or an intersection is divided among
      zero streets (a `ZeroDivisionError`). */
  datatype Error = UnknownStreet | DivisionByZero

  /** How a step that may raise ended. */
  datatype Status = Done | Raised(error: Error)

  /** The result of a solver: its value, or the error it raised. */
  datatype Outcome<T> = Ok(value: T) | Fail(error: Error)

  /** The streets entering intersection `id` (their `end` is `id`), in input order. */
  function EndingAt(streets: seq<StreetInfo>, id: int): (r: seq<StreetInfo>)
    ensures |r| <= |streets|
    ensures forall k :: 0 <= k < |r| ==> r[k].end == id
  {
    if streets == [] then []
    else
      var last := streets[|streets| - 1];
      EndingAt(streets[..|streets| - 1], id) + (if last.end == id then [last] else [])
  }

  /** A street enters intersection `id` exactly when it is one of the streets of the
      instance whose end is `id`. */
  lemma {:induction false} EndingAtMembers(streets: seq<StreetInfo>, id: int, s: StreetInfo)
    ensures s in EndingAt(streets, id) <==> s in streets && s.end == id
  {
    if streets != [] {
      var init := streets[..|streets| - 1];
      EndingAtMembers(init, id, s);
      assert streets == init + [streets[|streets| - 1]];
    }
  }

  /** How often `name` occurs on the paths of `cars`, repetitions included. */
  function Uses(cars: seq<Car>, name: string): nat
  {
    if cars == [] then 0
    else Uses(cars[..|cars| - 1], name) + multiset(cars[|cars| - 1].path)[name]
  }

  /** The names of `streets`, in order. */
  function Names(streets: seq<StreetInfo>): (r: seq<string>)
    ensures |r| == |streets|
    ensures forall k :: 0 <= k < |r| ==> r[k] == streets[k].name
  {
    seq(|streets|, k requires 0 <= k < |streets| => streets[k].name)
  }

  /** The loop that gathers the streets entering intersection `id`. */
  method StreetsEndingAt(streets: seq<StreetInfo>, id: int) returns (starting: seq<StreetInfo>)
    ensures starting == EndingAt(streets, id)
  {
    starting := [];
    for k := 0 to |streets|
      invariant starting == EndingAt(streets[..k], id)
    {
      assert streets[..k + 1][..k] == streets[..k];
      if streets[k].end == id {
        starting := starting + [streets[k]];
      }
    }
    assert streets[..|streets|] == streets;
  }

  /** Filtering is compositional: the streets entering `id` from `a + b` are those
      from `a` followed by those from `b`, which is what "in input order" means. */
  lemma {:induction false} EndingAtAppend(a: seq<StreetInfo>, b: seq<StreetInfo>, id: int)
    ensures EndingAt(a + b, id) == EndingAt(a, id) + EndingAt(b, id)
  {
    if b != [] {
      var ab := a + b;
      assert ab[..|ab| - 1] == a + b[..|b| - 1];
      EndingAtAppend(a, b[..|b| - 1], id);
    } else {
      assert a + b == a;
    }
  }

  /** Every occurrence of `name` on the paths of `a + b` is counted once. */
  lemma {:induction false} UsesAppend(a: seq<Car>, b: seq<Car>, name: string)
    ensures Uses(a + b, name) == Uses(a, name) + Uses(b, name)
  {
    if b != [] {
      var ab := a + b;
      assert ab[..|ab| - 1] == a + b[..|b| - 1];
      UsesAppend(a, b[..|b| - 1], name);
    } else {
      assert a + b == a;
    }
  }
}
