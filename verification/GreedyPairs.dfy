/** Pairing two lists up greedily, the first that fits wins, as crates/calliope-core/src/pipeline_diff.rs pairs elements
    and links. */
module GreedyPairs {
  import opened Prelude

  /** Whether place i of the left list may be paired with place j of the right one. */
  type Fit = (nat, nat) -> bool

  /** For each place of the left list the one it is paired with. */
  type Pairs = seq<Option<nat>>

  predicate Taken(pairs: Pairs, j: nat) {
    Some(j) in pairs
  }

  function FirstFree(fits: Fit, pairs: Pairs, i: nat, j: nat, m: nat): (r: Option<nat>)
    requires j <= m
    ensures r.Some? ==> j <= r.value < m && !Taken(pairs, r.value) && fits(i, r.value)
    ensures forall k: nat :: j <= k < m && (r.Some? ==> k < r.value) && fits(i, k) ==> Taken(pairs, k)
    decreases m - j
  {
    if j == m then None
    else if !Taken(pairs, j) && fits(i, j) then Some(j)
    else FirstFree(fits, pairs, i, j + 1, m)
  }

  /** The pairs of n places with m places. */
  function Greedy(fits: Fit, n: nat, m: nat): (pairs: Pairs)
    ensures |pairs| == n
  {
    if n == 0 then []
    else
      var before := Greedy(fits, n - 1, m);
      before + [FirstFree(fits, before, n - 1, 0, m)]
  }

  // ----- what a greedy pairing is -----

  ghost predicate AllFit(fits: Fit, m: nat, pairs: Pairs) {
    forall i: nat :: i < |pairs| && pairs[i].Some? ==> pairs[i].value < m && fits(i, pairs[i].value)
  }

  /** No place is paired twice. */
  ghost predicate OneToOne(pairs: Pairs) {
    forall i, j :: 0 <= i < j < |pairs| && pairs[i].Some? ==> pairs[i] != pairs[j]
  }

  /** A place that is left over fitted nothing that was free when its turn came. */
  ghost predicate NothingWasFree(fits: Fit, m: nat, pairs: Pairs) {
    forall i: nat, j: nat :: i < |pairs| && pairs[i].None? && j < m && fits(i, j) ==> Taken(pairs[..i], j)
  }

  /** A place is passed over only if an earlier one has taken it. */
  ghost predicate FirstWins(fits: Fit, pairs: Pairs) {
    forall i: nat, j: nat :: i < |pairs| && pairs[i].Some? && j < pairs[i].value && fits(i, j) ==> Taken(pairs[..i], j)
  }

  ghost predicate IsGreedy(fits: Fit, m: nat, pairs: Pairs) {
    AllFit(fits, m, pairs) && OneToOne(pairs) && NothingWasFree(fits, m, pairs) && FirstWins(fits, pairs)
  }

  /** These four leave one pairing, so they say all there is to say about it. */
  lemma {:induction false} GreedyMeans(fits: Fit, m: nat, pairs: Pairs)
    ensures pairs == Greedy(fits, |pairs|, m) <==> IsGreedy(fits, m, pairs)
  {
    GreedyIsGreedy(fits, |pairs|, m);
    if IsGreedy(fits, m, pairs) {
      OnlyGreedyIsGreedy(fits, m, pairs);
    }
  }

  /** No two places that are left over fit. */
  lemma LeftOversDoNotFit(fits: Fit, m: nat, pairs: Pairs, i: nat, j: nat)
    requires IsGreedy(fits, m, pairs) && i < |pairs| && j < m && pairs[i].None? && !Taken(pairs, j)
    ensures !fits(i, j)
  {
    assert Taken(pairs[..i], j) ==> Taken(pairs, j);
  }

  lemma {:induction false} GreedyIsGreedy(fits: Fit, n: nat, m: nat)
    ensures IsGreedy(fits, m, Greedy(fits, n, m))
  {
    if n > 0 {
      GreedyIsGreedy(fits, n - 1, m);
      var before, pairs := Greedy(fits, n - 1, m), Greedy(fits, n, m);
      OneMoreIsOneToOne(before, pairs[n - 1]);
      OneMoreWasNotFree(fits, m, before, pairs[n - 1]);
      OneMoreFirstWins(fits, before, pairs[n - 1]);
    }
  }

  lemma OneMoreIsOneToOne(before: Pairs, more: Option<nat>)
    requires OneToOne(before) && (more.Some? ==> !Taken(before, more.value))
    ensures OneToOne(before + [more])
  {
  }

  lemma OneMoreWasNotFree(fits: Fit, m: nat, before: Pairs, more: Option<nat>)
    requires NothingWasFree(fits, m, before)
    requires more.None? ==> forall j: nat :: j < m && fits(|before|, j) ==> Taken(before, j)
    ensures NothingWasFree(fits, m, before + [more])
  {
    var pairs := before + [more];
    forall i: nat, j: nat | i < |pairs| && pairs[i].None? && j < m && fits(i, j)
      ensures Taken(pairs[..i], j)
    {
      assert pairs[..i] == before[..i];
      assert before[..|before|] == before;
    }
  }

  lemma OneMoreFirstWins(fits: Fit, before: Pairs, more: Option<nat>)
    requires FirstWins(fits, before)
    requires more.Some? ==> forall j: nat :: j < more.value && fits(|before|, j) ==> Taken(before, j)
    ensures FirstWins(fits, before + [more])
  {
    var pairs := before + [more];
    forall i: nat, j: nat | i < |pairs| && pairs[i].Some? && j < pairs[i].value && fits(i, j)
      ensures Taken(pairs[..i], j)
    {
      assert pairs[..i] == before[..i];
      assert before[..|before|] == before;
    }
  }

  lemma {:induction false} OnlyGreedyIsGreedy(fits: Fit, m: nat, pairs: Pairs)
    requires IsGreedy(fits, m, pairs)
    ensures pairs == Greedy(fits, |pairs|, m)
  {
    if pairs != [] {
      var n := |pairs| - 1;
      var before := pairs[..n];
      FrontIsGreedy(fits, m, pairs);
      OnlyGreedyIsGreedy(fits, m, before);
      assert pairs == before + [pairs[n]];
      assert pairs[n].Some? ==> !Taken(before, pairs[n].value);
      assert FirstFree(fits, before, n, 0, m) == pairs[n];
    }
  }

  lemma FrontIsGreedy(fits: Fit, m: nat, pairs: Pairs)
    requires pairs != [] && IsGreedy(fits, m, pairs)
    ensures IsGreedy(fits, m, pairs[..|pairs| - 1])
  {
    var front := pairs[..|pairs| - 1];
    forall i | 0 <= i < |front|
      ensures front[..i] == pairs[..i]
    {
    }
  }

  /** A list paired with itself: every place is paired with itself, even if it fits others. */
  lemma {:induction false} SelfIsIdentity(fits: Fit, n: nat, m: nat)
    requires n <= m && forall i: nat :: i < n ==> fits(i, i)
    ensures forall i :: 0 <= i < n ==> Greedy(fits, n, m)[i] == Some(i)
  {
    if n > 0 {
      SelfIsIdentity(fits, n - 1, m);
      var before := Greedy(fits, n - 1, m);
      forall j: nat
        ensures Taken(before, j) <==> j < n - 1
      {
        assert j < n - 1 ==> before[j] == Some(j);
      }
      assert fits(n - 1, n - 1);
      assert FirstFree(fits, before, n - 1, 0, m) == Some(n - 1);
      assert Greedy(fits, n, m) == before + [Some(n - 1)];
    }
  }

  // ----- who is paired, and who is left over -----

  /** The pairs as left and right places. */
  function Paired(pairs: Pairs): seq<(nat, nat)> {
    if pairs == [] then []
    else
      var i := |pairs| - 1;
      Paired(pairs[..i]) + if pairs[i].Some? then [(i, pairs[i].value)] else []
  }

  /** The left places without a pair. */
  function LeftOver(pairs: Pairs): seq<nat> {
    if pairs == [] then []
    else
      var i := |pairs| - 1;
      LeftOver(pairs[..i]) + if pairs[i].None? then [i] else []
  }

  /** The right places below m without a pair. */
  function RightOver(pairs: Pairs, m: nat): seq<nat> {
    if m == 0 then []
    else RightOver(pairs, m - 1) + if Taken(pairs, m - 1) then [] else [m - 1]
  }

  function Lefts(paired: seq<(nat, nat)>): (r: seq<nat>)
    ensures |r| == |paired|
  {
    seq(|paired|, i requires 0 <= i < |paired| => paired[i].0)
  }

  function Rights(paired: seq<(nat, nat)>): (r: seq<nat>)
    ensures |r| == |paired|
  {
    seq(|paired|, i requires 0 <= i < |paired| => paired[i].1)
  }

  lemma LastOfBoth(front: seq<(nat, nat)>, last: (nat, nat))
    ensures Lefts(front + [last]) == Lefts(front) + [last.0]
    ensures Rights(front + [last]) == Rights(front) + [last.1]
  {
  }

  /** Every left place is in a pair or left over, once. */
  lemma {:induction false} LeftIsConserved(pairs: Pairs, i: nat)
    ensures multiset(Lefts(Paired(pairs)))[i] + multiset(LeftOver(pairs))[i] == if i < |pairs| then 1 else 0
  {
    if pairs != [] {
      var n := |pairs| - 1;
      LeftIsConserved(pairs[..n], i);
      if pairs[n].Some? {
        LastOfBoth(Paired(pairs[..n]), (n, pairs[n].value));
      } else {
        assert Paired(pairs) == Paired(pairs[..n]);
      }
    }
  }

  /** So is every right place. */
  lemma {:induction false} RightIsConserved(pairs: Pairs, m: nat, j: nat)
    requires OneToOne(pairs) && forall i :: 0 <= i < |pairs| && pairs[i].Some? ==> pairs[i].value < m
    ensures multiset(Rights(Paired(pairs)))[j] + multiset(RightOver(pairs, m))[j] == if j < m then 1 else 0
  {
    RightsAreTaken(pairs, j);
    RightOverIsFree(pairs, m, j);
    if Taken(pairs, j) {
      var i :| 0 <= i < |pairs| && pairs[i] == Some(j);
    }
  }

  lemma {:induction false} RightsAreTaken(pairs: Pairs, j: nat)
    requires OneToOne(pairs)
    ensures multiset(Rights(Paired(pairs)))[j] == if Taken(pairs, j) then 1 else 0
  {
    if pairs != [] {
      var n := |pairs| - 1;
      var front := pairs[..n];
      RightsAreTaken(front, j);
      assert pairs == front + [pairs[n]];
      if pairs[n].Some? {
        LastOfBoth(Paired(front), (n, pairs[n].value));
        assert !Taken(front, pairs[n].value);
      } else {
        assert Paired(pairs) == Paired(front);
      }
    }
  }

  lemma {:induction false} RightOverIsFree(pairs: Pairs, m: nat, j: nat)
    ensures multiset(RightOver(pairs, m))[j] == if j < m && !Taken(pairs, j) then 1 else 0
  {
    if m > 0 {
      RightOverIsFree(pairs, m - 1, j);
    }
  }

  /** Nothing is left over on the left exactly when every place has a pair. */
  lemma {:induction false} NoneLeftOver(pairs: Pairs)
    ensures LeftOver(pairs) == [] <==> forall i :: 0 <= i < |pairs| ==> pairs[i].Some?
  {
    if pairs != [] {
      var n := |pairs| - 1;
      NoneLeftOver(pairs[..n]);
      assert forall i :: 0 <= i < n ==> pairs[..n][i] == pairs[i];
    }
  }

  lemma {:induction false} NoneRightOver(pairs: Pairs, m: nat)
    ensures RightOver(pairs, m) == [] <==> forall j: nat :: j < m ==> Taken(pairs, j)
  {
    if m > 0 {
      NoneRightOver(pairs, m - 1);
    }
  }

  /** The pairs that are listed are the pairs. */
  lemma {:induction false} PairedAreThePairs(pairs: Pairs, i: nat, j: nat)
    ensures (i, j) in Paired(pairs) <==> i < |pairs| && pairs[i] == Some(j)
  {
    if pairs != [] {
      PairedAreThePairs(pairs[..|pairs| - 1], i, j);
    }
  }
}
