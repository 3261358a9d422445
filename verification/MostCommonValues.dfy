/** The value seen most often, crates/calliope-core/src/timestamps.rs. */
module MostCommonValues {
  import opened Prelude

  function Count(values: seq<int>, v: int): nat {
    if values == [] then 0
    else Count(values[..|values| - 1], v) + if values[|values| - 1] == v then 1 else 0
  }

  /** v is the value at place i and not before, no value is seen more often, and none at an earlier place as often. */
  ghost predicate IsMostCommonAt(values: seq<int>, v: int, i: int) {
    && 0 <= i < |values|
    && values[i] == v
    && (forall j :: 0 <= j < |values| ==> Count(values, values[j]) <= Count(values, v))
    && (forall j :: 0 <= j < i ==> Count(values, values[j]) < Count(values, v))
  }

  ghost predicate IsMostCommon(values: seq<int>, r: Option<int>) {
    match r
    case None => values == []
    case Some(v) => exists i :: IsMostCommonAt(values, v, i)
  }

  lemma MostCommonIsUnique(values: seq<int>, a: Option<int>, b: Option<int>)
    requires IsMostCommon(values, a) && IsMostCommon(values, b)
    ensures a == b
  {
    if a.Some? && b.Some? {
      var i :| IsMostCommonAt(values, a.value, i);
      var j :| IsMostCommonAt(values, b.value, j);
    }
  }

  /** Counts what has been seen of each value. */
  ghost predicate Counts(values: seq<int>, counts: map<int, nat>) {
    && (forall v :: v in counts ==> counts[v] == Count(values, v))
    && (forall v :: v !in counts ==> Count(values, v) == 0)
    && (forall i :: 0 <= i < |values| ==> values[i] in counts)
    && (forall v :: v in counts ==> v in values)
  }

  lemma CountsOneMore(values: seq<int>, v: int, counts: map<int, nat>)
    requires Counts(values, counts)
    ensures Counts(values + [v], counts[v := (if v in counts then counts[v] else 0) + 1])
  {
    var more := values + [v];
    assert more[..|more| - 1] == values;
    forall x
      ensures Count(more, x) == Count(values, x) + if x == v then 1 else 0
    {
    }
  }

  /** Counts every value, and looks for the first with the highest count. */
  method MostCommon(values: seq<int>) returns (r: Option<int>)
    ensures IsMostCommon(values, r)
  {
    var counts: map<int, nat> := map[];
    for i := 0 to |values|
      invariant Counts(values[..i], counts)
    {
      var value := values[i];
      CountsOneMore(values[..i], value, counts);
      assert values[..i + 1] == values[..i] + [value];
      counts := counts[value := (if value in counts then counts[value] else 0) + 1];
    }
    assert values[..|values|] == values;
    if values == [] {
      return None;
    }
    var highest, best := Highest(counts, values[0]);
    var i := 0;
    while counts[values[i]] != highest
      invariant 0 <= i < |values|
      invariant forall j :: 0 <= j < i ==> counts[values[j]] < highest
      decreases |values| - i
    {
      HighestIsLater(values, counts, highest, best, i);
      i := i + 1;
    }
    assert IsMostCommonAt(values, values[i], i);
    r := Some(values[i]);
  }

  /** The search for the highest count does not run off the end. */
  lemma HighestIsLater(values: seq<int>, counts: map<int, nat>, highest: nat, best: int, i: nat)
    requires Counts(values, counts) && i < |values| && best in counts && counts[best] == highest
    requires forall j :: 0 <= j <= i ==> counts[values[j]] != highest
    ensures i + 1 < |values|
  {
    assert best in values;
    var j :| 0 <= j < |values| && values[j] == best;
  }

  method Highest(counts: map<int, nat>, some: int) returns (r: nat, ghost best: int)
    requires some in counts
    ensures best in counts && counts[best] == r
    ensures forall v :: v in counts ==> counts[v] <= r
  {
    r, best := counts[some], some;
    var keys := counts.Keys;
    while keys != {}
      invariant keys <= counts.Keys
      invariant best in counts && counts[best] == r
      invariant forall v :: v in counts && v !in keys ==> counts[v] <= r
      decreases keys
    {
      ghost var one := SomeElement(keys);
      var v :| v in keys;
      if counts[v] > r {
        r, best := counts[v], v;
      }
      keys := keys - {v};
    }
  }

  // ----- shifting -----

  function Shifted(values: seq<int>, shift: int): (r: seq<int>)
    ensures |r| == |values| && forall i :: 0 <= i < |values| ==> r[i] == values[i] + shift
  {
    seq(|values|, i requires 0 <= i < |values| => values[i] + shift)
  }

  lemma {:induction false} ShiftKeepsCounts(values: seq<int>, shift: int, v: int)
    ensures Count(Shifted(values, shift), v + shift) == Count(values, v)
  {
    if values != [] {
      var front := values[..|values| - 1];
      assert Shifted(values, shift)[..|values| - 1] == Shifted(front, shift);
      ShiftKeepsCounts(front, shift, v);
    }
  }

  lemma ShiftMovesMostCommon(values: seq<int>, shift: int, v: int, i: int)
    requires IsMostCommonAt(values, v, i)
    ensures IsMostCommonAt(Shifted(values, shift), v + shift, i)
  {
    var moved := Shifted(values, shift);
    ShiftKeepsCounts(values, shift, v);
    forall j | 0 <= j < |values|
      ensures Count(moved, moved[j]) == Count(values, values[j])
    {
      ShiftKeepsCounts(values, shift, values[j]);
    }
  }

  lemma ShiftMovesTheMostCommon(values: seq<int>, shift: int, v: int)
    requires IsMostCommon(values, Some(v))
    ensures IsMostCommon(Shifted(values, shift), Some(v + shift))
  {
    var i :| IsMostCommonAt(values, v, i);
    ShiftMovesMostCommon(values, shift, v, i);
  }

  /** If all values are the same, that one is the most common. */
  lemma OnlyValueIsMostCommon(values: seq<int>, v: int)
    requires values != [] && forall i :: 0 <= i < |values| ==> values[i] == v
    ensures IsMostCommon(values, Some(v))
  {
    assert IsMostCommonAt(values, v, 0);
  }

  lemma {:induction false} MostCommonIsHighest(values: seq<int>, v: int, other: int)
    requires IsMostCommon(values, Some(v))
    ensures Count(values, other) <= Count(values, v) && Count(values, v) > 0
  {
    var i :| IsMostCommonAt(values, v, i);
    CountedIsThere(values, other);
    ThereIsCounted(values, i);
  }

  lemma {:induction false} CountedIsThere(values: seq<int>, v: int)
    ensures Count(values, v) > 0 ==> exists j :: 0 <= j < |values| && values[j] == v
  {
    if values != [] && Count(values, v) > 0 {
      if values[|values| - 1] != v {
        CountedIsThere(values[..|values| - 1], v);
        var j :| 0 <= j < |values| - 1 && values[..|values| - 1][j] == v;
        assert values[j] == v;
      }
    }
  }

  lemma {:induction false} ThereIsCounted(values: seq<int>, j: nat)
    requires j < |values|
    ensures Count(values, values[j]) > 0
  {
    if j < |values| - 1 {
      ThereIsCounted(values[..|values| - 1], j);
    }
  }
}
