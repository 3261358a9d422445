/** Parallel links are paired in the order in which they are listed, crates/calliope-core/src/pipeline_diff.rs: of two
    lists of links between the same elements, the first link from one element to another is paired with the first from
    that one to that other, the second with the second, and so on. */
module LinkRanks {
  import opened Prelude
  import opened PipelineGraphs
  import opened GreedyPairs
  import opened CapsDiffs

  type Links = seq<Link>

  predicate Joins(link: Link, a: nat, b: nat) {
    link.from == a && link.to == b
  }

  /** The caps of the links from a to b, in list order. */
  function CapsBetween(links: Links, a: nat, b: nat): seq<Option<Caps>> {
    if links == [] then []
    else
      var last := links[|links| - 1];
      CapsBetween(links[..|links| - 1], a, b) + if Joins(last, a, b) then [last.caps] else []
  }

  /** How many earlier links join the same elements. */
  function Rank(links: Links, i: nat): nat
    requires i < |links|
  {
    |CapsBetween(links[..i], links[i].from, links[i].to)|
  }

  lemma {:induction false} CapsGrow(links: Links, i: nat, j: nat, a: nat, b: nat)
    requires i <= j <= |links|
    ensures CapsBetween(links[..i], a, b) <= CapsBetween(links[..j], a, b)
  {
    if i < j {
      CapsGrow(links, i, j - 1, a, b);
      assert links[..j][..j - 1] == links[..j - 1];
    }
  }

  /** A link is found at its rank. */
  lemma {:induction false} AtItsRank(links: Links, i: nat)
    requires i < |links|
    ensures var caps := CapsBetween(links, links[i].from, links[i].to);
            Rank(links, i) < |caps| && caps[Rank(links, i)] == links[i].caps
  {
    CapsGrow(links, i + 1, |links|, links[i].from, links[i].to);
    assert links[..i + 1][..i] == links[..i] && links[..|links|] == links;
  }

  lemma RankGrows(links: Links, i: nat, j: nat)
    requires i < j < |links| && Joins(links[j], links[i].from, links[i].to)
    ensures Rank(links, i) < Rank(links, j)
  {
    CapsGrow(links, i + 1, j, links[i].from, links[i].to);
    assert links[..i + 1][..i] == links[..i];
  }

  /** And every rank is some link's. */
  lemma {:induction false} OfRank(links: Links, n: nat, a: nat, b: nat, rank: nat) returns (i: nat)
    requires n <= |links| && rank < |CapsBetween(links[..n], a, b)|
    ensures i < n && Joins(links[i], a, b) && Rank(links, i) == rank
  {
    assert links[..n][..n - 1] == links[..n - 1];
    if rank < |CapsBetween(links[..n - 1], a, b)| {
      i := OfRank(links, n - 1, a, b, rank);
    } else {
      i := n - 1;
    }
  }

  function EndsFit(left: Links, right: Links): Fit {
    (i: nat, j: nat) => i < |left| && j < |right| && Joins(right[j], left[i].from, left[i].to)
  }

  predicate SameRank(left: Links, right: Links, i: nat, j: nat)
    requires i < |left| && j < |right|
  {
    Joins(right[j], left[i].from, left[i].to) && Rank(left, i) == Rank(right, j)
  }

  /** Links are paired if and only if they join the same elements and have the same rank. */
  lemma {:induction false} PairedByRank(left: Links, right: Links, pairs: Pairs, i: nat, j: nat)
    requires |pairs| == |left| && IsGreedy(EndsFit(left, right), |right|, pairs)
    requires i < |left| && j < |right|
    ensures pairs[i] == Some(j) <==> SameRank(left, right, i, j)
    decreases i, 2
  {
    var fits := EndsFit(left, right);
    if pairs[i] == Some(j) {
      assert fits(i, j);
      PairedHasRank(left, right, pairs, i, j);
    } else if SameRank(left, right, i, j) {
      assert fits(i, j);
      if pairs[i].Some? {
        var k := pairs[i].value;
        assert fits(i, k);
        PairedHasRank(left, right, pairs, i, k);
        if j < k {
          RankGrows(right, j, k);
        } else {
          RankGrows(right, k, j);
        }
      } else {
        assert Taken(pairs[..i], j);
        TakenHasLowerRank(left, right, pairs, i, j);
      }
    }
  }

  lemma {:induction false} PairedHasRank(left: Links, right: Links, pairs: Pairs, i: nat, j: nat)
    requires |pairs| == |left| && IsGreedy(EndsFit(left, right), |right|, pairs)
    requires i < |left| && j < |right| && pairs[i] == Some(j) && Joins(right[j], left[i].from, left[i].to)
    ensures Rank(left, i) == Rank(right, j)
    decreases i, 1
  {
    var fits, a, b := EndsFit(left, right), left[i].from, left[i].to;
    if Rank(right, j) < Rank(left, i) {
      var earlier := OfRank(left, i, a, b, Rank(right, j));
      PairedByRank(left, right, pairs, earlier, j);
    } else if Rank(left, i) < Rank(right, j) {
      var free := OfRank(right, j, a, b, Rank(left, i));
      assert fits(i, free) && Taken(pairs[..i], free);
      TakenHasLowerRank(left, right, pairs, i, free);
    }
  }

  /** What an earlier link between the same elements is paired with has its rank, which is lower. */
  lemma {:induction false} TakenHasLowerRank(left: Links, right: Links, pairs: Pairs, i: nat, j: nat)
    requires |pairs| == |left| && IsGreedy(EndsFit(left, right), |right|, pairs)
    requires i < |left| && j < |right| && Joins(right[j], left[i].from, left[i].to) && Taken(pairs[..i], j)
    ensures Rank(right, j) < Rank(left, i)
    decreases i, 0
  {
    var k: nat :| k < i && pairs[..i][k] == Some(j);
    PairedByRank(left, right, pairs, k, j);
    RankGrows(left, k, i);
  }

  // ----- when all links are paired and compare clean -----

  ghost predicate CompareClean(left: seq<Option<Caps>>, right: seq<Option<Caps>>) {
    |left| == |right| && forall k :: 0 <= k < |left| ==> Compared(left[k], right[k]).IsClean()
  }

  ghost predicate IsCleanPair(left: Links, right: Links, pairs: Pairs, i: nat)
    requires i < |left|
  {
    && i < |pairs| && pairs[i].Some? && pairs[i].value < |right|
    && Compared(left[i].caps, right[pairs[i].value].caps).IsClean()
  }

  ghost predicate AllPairedClean(left: Links, right: Links, pairs: Pairs) {
    && (forall i: nat :: i < |left| ==> IsCleanPair(left, right, pairs, i))
    && (forall j: nat :: j < |right| ==> Taken(pairs, j))
  }

  ghost predicate CleanBetween(left: Links, right: Links, a: nat, b: nat) {
    CompareClean(CapsBetween(left, a, b), CapsBetween(right, a, b))
  }

  /** That is so if and only if, between any two elements, both lists have as many links, and the caps of the first
      compare clean with those of the first, of the second with those of the second, and so on. */
  lemma {:induction false} PairedCleanIff(left: Links, right: Links, pairs: Pairs)
    requires |pairs| == |left| && IsGreedy(EndsFit(left, right), |right|, pairs)
    ensures AllPairedClean(left, right, pairs) <==> forall a: nat, b: nat :: CleanBetween(left, right, a, b)
  {
    if AllPairedClean(left, right, pairs) {
      forall a: nat, b: nat
        ensures CleanBetween(left, right, a, b)
      {
        PairedAreClean(left, right, pairs, a, b);
      }
    } else {
      if i: nat :| i < |left| && !IsCleanPair(left, right, pairs, i) {
        if CleanBetween(left, right, left[i].from, left[i].to) {
          LeftIsPaired(left, right, pairs, i);
        }
      } else {
        var j: nat :| j < |right| && !Taken(pairs, j);
        if CleanBetween(left, right, right[j].from, right[j].to) {
          RightIsTaken(left, right, pairs, j);
        }
      }
    }
  }

  lemma LeftIsPaired(left: Links, right: Links, pairs: Pairs, i: nat)
    requires |pairs| == |left| && IsGreedy(EndsFit(left, right), |right|, pairs) && i < |left|
    requires CleanBetween(left, right, left[i].from, left[i].to)
    ensures IsCleanPair(left, right, pairs, i)
  {
    AtItsRank(left, i);
    assert right[..|right|] == right;
    var j := OfRank(right, |right|, left[i].from, left[i].to, Rank(left, i));
    AtItsRank(right, j);
    PairedByRank(left, right, pairs, i, j);
  }

  lemma RightIsTaken(left: Links, right: Links, pairs: Pairs, j: nat)
    requires |pairs| == |left| && IsGreedy(EndsFit(left, right), |right|, pairs) && j < |right|
    requires CleanBetween(left, right, right[j].from, right[j].to)
    ensures Taken(pairs, j)
  {
    AtItsRank(right, j);
    assert left[..|left|] == left;
    var i := OfRank(left, |left|, right[j].from, right[j].to, Rank(right, j));
    PairedByRank(left, right, pairs, i, j);
    assert pairs[i] == Some(j);
  }

  lemma PairedAreClean(left: Links, right: Links, pairs: Pairs, a: nat, b: nat)
    requires |pairs| == |left| && IsGreedy(EndsFit(left, right), |right|, pairs)
    requires AllPairedClean(left, right, pairs)
    ensures CleanBetween(left, right, a, b)
  {
    var l, r := CapsBetween(left, a, b), CapsBetween(right, a, b);
    if |l| > |r| {
      LeftHasPartner(left, right, pairs, a, b, |r|);
    } else if |r| > |l| {
      RightHasPartner(left, right, pairs, a, b, |l|);
    }
    forall k: nat | k < |l|
      ensures Compared(l[k], r[k]).IsClean()
    {
      LeftHasPartner(left, right, pairs, a, b, k);
    }
  }

  lemma {:induction false} LeftHasPartner(left: Links, right: Links, pairs: Pairs, a: nat, b: nat, k: nat)
    requires |pairs| == |left| && IsGreedy(EndsFit(left, right), |right|, pairs)
    requires AllPairedClean(left, right, pairs) && k < |CapsBetween(left, a, b)|
    ensures k < |CapsBetween(right, a, b)|
    ensures Compared(CapsBetween(left, a, b)[k], CapsBetween(right, a, b)[k]).IsClean()
  {
    assert left[..|left|] == left;
    var i := OfRank(left, |left|, a, b, k);
    assert IsCleanPair(left, right, pairs, i);
    PairedByRank(left, right, pairs, i, pairs[i].value);
    AtItsRank(left, i);
    AtItsRank(right, pairs[i].value);
  }

  lemma {:induction false} RightHasPartner(left: Links, right: Links, pairs: Pairs, a: nat, b: nat, k: nat)
    requires |pairs| == |left| && IsGreedy(EndsFit(left, right), |right|, pairs)
    requires AllPairedClean(left, right, pairs) && k < |CapsBetween(right, a, b)|
    ensures k < |CapsBetween(left, a, b)|
  {
    assert right[..|right|] == right;
    var j := OfRank(right, |right|, a, b, k);
    assert Taken(pairs, j);
    var i :| 0 <= i < |pairs| && pairs[i] == Some(j);
    PairedByRank(left, right, pairs, i, j);
    AtItsRank(left, i);
  }
}
