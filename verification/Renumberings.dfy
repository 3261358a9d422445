/** When the order in which a pipeline lists its elements matters to its diff against itself,
    crates/calliope-core/src/pipeline_diff.rs. */
module Renumberings {
  import opened Prelude
  import opened PipelineGraphs
  import opened Orders
  import opened GreedyPairs
  import opened CapsDiffs
  import opened LinkRanks
  import opened PipelineDiffs
  import opened Reorderings
  import ElementNames

  // ----- the same pipeline with its elements in another order -----

  function MapLinks(links: Links, p: Order): (r: Links)
    requires forall i :: 0 <= i < |links| ==> links[i].from < |p| && links[i].to < |p|
    ensures |r| == |links|
  {
    seq(|links|, i requires 0 <= i < |links| => Link(p[links[i].from], p[links[i].to], links[i].caps))
  }

  /** The elements in the order p, and the same links between them. */
  ghost function Renumbered(g: PipelineGraph, p: Order): (r: PipelineGraph)
    requires g.WellFormed() && IsOrder(p, |g.elements|)
    ensures r.WellFormed() && Reorders(g.elements, r.elements, p)
  {
    var n := |g.elements|;
    var elements := seq(n, k requires 0 <= k < n => g.elements[Origin(p, n, k)]);
    PipelineGraph(elements, MapLinks(g.links, p))
  }

  /** However either side orders the elements of this pipeline, the two match. */
  ghost predicate OrderNeverMatters(naming: Naming, g: PipelineGraph)
    requires g.WellFormed()
  {
    forall p, q, d :: IsOrder(p, |g.elements|) && IsOrder(q, |g.elements|) ==> MatchInOrders(naming, g, p, q, d)
  }

  ghost predicate MatchInOrders(naming: Naming, g: PipelineGraph, p: Order, q: Order, d: PipelineDiff)
    requires g.WellFormed() && IsOrder(p, |g.elements|) && IsOrder(q, |g.elements|)
  {
    IsDiff(naming, Renumbered(g, p), Renumbered(g, q), d) ==> d.verdict == Match
  }

  // ----- what the order may do -----

  /** Takes each element to one whose name matches. */
  ghost predicate IsRenaming(naming: Naming, g: PipelineGraph, s: Order) {
    && IsOrder(s, |g.elements|)
    && forall a :: 0 <= a < |s| ==> naming(g.elements[a].name, g.elements[s[a]].name)
  }

  /** The links between two elements are as many as those between the two they are taken to, and the caps compare clean,
      the first with the first and so on. */
  ghost predicate KeepsLinks(g: PipelineGraph, s: Order)
    requires |s| == |g.elements|
  {
    forall a: nat, b: nat :: a < |s| && b < |s| ==> KeepsLinksBetween(g, s, a, b)
  }

  ghost predicate KeepsLinksBetween(g: PipelineGraph, s: Order, a: nat, b: nat)
    requires a < |s| && b < |s|
  {
    CompareClean(CapsBetween(g.links, a, b), CapsBetween(g.links, s[a], s[b]))
  }

  ghost predicate RenamingsKeepLinks(naming: Naming, g: PipelineGraph) {
    forall s :: IsRenaming(naming, g, s) ==> KeepsLinks(g, s)
  }

  // ----- links of a renumbered pipeline -----

  lemma {:induction false} CapsBetweenMapped(links: Links, p: Order, n: nat, a: nat, b: nat)
    requires IsOrder(p, n) && a < n && b < n
    requires forall i :: 0 <= i < |links| ==> links[i].from < n && links[i].to < n
    ensures CapsBetween(MapLinks(links, p), p[a], p[b]) == CapsBetween(links, a, b)
  {
    if links != [] {
      var front, last := links[..|links| - 1], links[|links| - 1];
      CapsBetweenMapped(front, p, n, a, b);
      assert MapLinks(links, p)[..|links| - 1] == MapLinks(front, p);
      OneToOneAt(p, n, a, last.from);
      OneToOneAt(p, n, b, last.to);
    }
  }

  lemma OneToOneAt(p: Order, n: nat, a: nat, b: nat)
    requires IsOrder(p, n) && a < n && b < n
    ensures p[a] == p[b] <==> a == b
  {
  }

  lemma {:induction false} NoCapsOutside(links: Links, n: nat, a: nat, b: nat)
    requires forall i :: 0 <= i < |links| ==> links[i].from < n && links[i].to < n
    requires a >= n || b >= n
    ensures CapsBetween(links, a, b) == []
  {
    if links != [] {
      NoCapsOutside(links[..|links| - 1], n, a, b);
    }
  }

  /** The links as s takes them against the links as they are. */
  lemma KeepsLinksMeans(g: PipelineGraph, s: Order)
    requires g.WellFormed() && IsOrder(s, |g.elements|)
    ensures KeepsLinks(g, s) <==> forall a: nat, b: nat :: CleanBetween(MapLinks(g.links, s), g.links, a, b)
  {
    var n, mapped := |g.elements|, MapLinks(g.links, s);
    if KeepsLinks(g, s) {
      forall a: nat, b: nat
        ensures CleanBetween(mapped, g.links, a, b)
      {
        if a < n && b < n {
          var x, y := Origin(s, n, a), Origin(s, n, b);
          CapsBetweenMapped(g.links, s, n, x, y);
          assert KeepsLinksBetween(g, s, x, y);
        } else {
          NoCapsOutside(mapped, n, a, b);
          NoCapsOutside(g.links, n, a, b);
        }
      }
    } else {
      var a: nat, b: nat :| a < n && b < n && !KeepsLinksBetween(g, s, a, b);
      CapsBetweenMapped(g.links, s, n, a, b);
      assert !CleanBetween(mapped, g.links, s[a], s[b]);
    }
  }

  // ----- what the pairs of two orders do to the elements -----

  /** With the elements in the orders p and q, each element is paired with the one s takes it to. */
  ghost predicate PairsBy(pairs: Pairs, n: nat, p: Order, q: Order, s: Order)
    requires IsOrder(p, n) && IsOrder(q, n) && IsOrder(s, n)
  {
    |pairs| == n && forall a :: 0 <= a < n ==> pairs[p[a]] == Some(q[s[a]])
  }

  lemma SameFitsSamePairs(fits: Fit, others: Fit, m: nat, pairs: Pairs)
    requires IsGreedy(fits, m, pairs)
    requires forall i: nat, j: nat :: i < |pairs| && j < m ==> fits(i, j) == others(i, j)
    ensures IsGreedy(others, m, pairs)
  {
  }

  /** Then the links are paired as if s had taken the links of the left side. */
  lemma LinksPairAsTaken(g: PipelineGraph, n: nat, p: Order, q: Order, s: Order, pairs: Pairs)
    requires g.WellFormed() && n == |g.elements| && IsOrder(p, n) && IsOrder(q, n) && IsOrder(s, n)
    requires PairsBy(pairs, n, p, q, s)
    ensures var left, right := MapLinks(g.links, p), MapLinks(g.links, q);
            IsGreedy(EndsFit(MapLinks(g.links, s), g.links), |g.links|, LinkPairs(pairs, left, right))
  {
    var left, right := MapLinks(g.links, p), MapLinks(g.links, q);
    var links := LinkPairs(pairs, left, right);
    GreedyMeans(LinkFit(pairs, left, right), |right|, links);
    forall i: nat, j: nat | i < |links| && j < |right|
      ensures LinkFit(pairs, left, right)(i, j) == EndsFit(MapLinks(g.links, s), g.links)(i, j)
    {
      FitAsTaken(g, n, p, q, s, pairs, i, j);
    }
    SameFitsSamePairs(LinkFit(pairs, left, right), EndsFit(MapLinks(g.links, s), g.links), |right|, links);
  }

  lemma FitAsTaken(g: PipelineGraph, n: nat, p: Order, q: Order, s: Order, pairs: Pairs, i: nat, j: nat)
    requires g.WellFormed() && n == |g.elements| && IsOrder(p, n) && IsOrder(q, n) && IsOrder(s, n)
    requires PairsBy(pairs, n, p, q, s) && i < |g.links| && j < |g.links|
    ensures LinksFit(pairs, MapLinks(g.links, p)[i], MapLinks(g.links, q)[j])
            <==> Joins(g.links[j], s[g.links[i].from], s[g.links[i].to])
  {
    var l, r := g.links[i], g.links[j];
    assert pairs[p[l.from]] == Some(q[s[l.from]]) && pairs[p[l.to]] == Some(q[s[l.to]]);
    OneToOneAt(q, n, s[l.from], r.from);
    OneToOneAt(q, n, s[l.to], r.to);
  }

  /** So the verdict depends on what s does to the links. */
  lemma VerdictOfOrders(naming: Naming, g: PipelineGraph, p: Order, q: Order, s: Order, d: PipelineDiff)
    requires g.WellFormed() && IsOrder(p, |g.elements|) && IsOrder(q, |g.elements|) && IsOrder(s, |g.elements|)
    requires IsDiff(naming, Renumbered(g, p), Renumbered(g, q), d)
    requires var pairs := ElementPairs(naming, Renumbered(g, p), Renumbered(g, q));
             IsTotal(pairs, |g.elements|) && PairsBy(pairs, |g.elements|, p, q, s)
    ensures d.verdict == Match <==> KeepsLinks(g, s)
  {
    var pairs := ElementPairs(naming, Renumbered(g, p), Renumbered(g, q));
    var left, right := MapLinks(g.links, p), MapLinks(g.links, q);
    var links := LinkPairs(pairs, left, right);
    MatchMeans(naming, Renumbered(g, p), Renumbered(g, q), d);
    LinksPairAsTaken(g, |g.elements|, p, q, s, pairs);
    PairedCleanIff(MapLinks(g.links, s), g.links, links);
    KeepsLinksMeans(g, s);
    CleanAsTaken(g, p, q, s, links);
  }

  /** Renumbering does not change caps. */
  lemma CleanAsTaken(g: PipelineGraph, p: Order, q: Order, s: Order, links: Pairs)
    requires g.WellFormed() && IsOrder(p, |g.elements|) && IsOrder(q, |g.elements|) && IsOrder(s, |g.elements|)
    requires |links| == |g.links| && InRange(links, MapLinks(g.links, p), MapLinks(g.links, q))
    ensures IsTotal(links, |g.links|) && AllClean(links, MapLinks(g.links, p), MapLinks(g.links, q))
            <==> AllPairedClean(MapLinks(g.links, s), g.links, links)
  {
    var left, right, taken := MapLinks(g.links, p), MapLinks(g.links, q), MapLinks(g.links, s);
    if IsTotal(links, |g.links|) && AllClean(links, left, right) {
      forall i: nat | i < |taken|
        ensures IsCleanPair(taken, g.links, links, i)
      {
        assert PairIsClean(links, left, right, i);
      }
    }
    if AllPairedClean(taken, g.links, links) {
      forall i | 0 <= i < |links|
        ensures links[i].Some? && PairIsClean(links, left, right, i)
      {
        assert IsCleanPair(taken, g.links, links, i);
      }
    }
  }

  // ----- both directions -----

  /** The elements that two orders pair, if they pair all: each with one whose name matches. */
  lemma TakenByPairs(naming: Naming, g: PipelineGraph, p: Order, q: Order) returns (s: Order)
    requires g.WellFormed() && IsOrder(p, |g.elements|) && IsOrder(q, |g.elements|)
    requires IsTotal(ElementPairs(naming, Renumbered(g, p), Renumbered(g, q)), |g.elements|)
    ensures IsRenaming(naming, g, s)
    ensures PairsBy(ElementPairs(naming, Renumbered(g, p), Renumbered(g, q)), |g.elements|, p, q, s)
  {
    var n, left, right := |g.elements|, Renumbered(g, p), Renumbered(g, q);
    var pairs := ElementPairs(naming, left, right);
    GreedyMeans(ElementFit(naming, left.elements, right.elements), n, pairs);
    s := TakenBy(n, p, q, pairs);
    forall a | 0 <= a < n
      ensures naming(g.elements[a].name, g.elements[s[a]].name)
    {
      assert pairs[p[a]] == Some(q[s[a]]);
      assert ElementFit(naming, left.elements, right.elements)(p[a], q[s[a]]);
      assert left.elements[p[a]] == g.elements[a] && right.elements[q[s[a]]] == g.elements[s[a]];
    }
  }

  lemma TakenBy(n: nat, p: Order, q: Order, pairs: Pairs) returns (s: Order)
    requires IsOrder(p, n) && IsOrder(q, n) && |pairs| == n && OneToOne(pairs)
    requires forall i :: 0 <= i < n ==> pairs[i].Some? && pairs[i].value < n
    ensures IsOrder(s, n) && PairsBy(pairs, n, p, q, s)
  {
    s := seq(n, a requires 0 <= a < n => Origin(q, n, pairs[p[a]].value));
    forall a, b | 0 <= a < b < n
      ensures s[a] != s[b]
    {
      assert pairs[p[a]] != pairs[p[b]];
    }
  }

  lemma SomeDiff(naming: Naming, left: PipelineGraph, right: PipelineGraph) returns (d: PipelineDiff)
    ensures IsDiff(naming, left, right, d)
  {
    var pairs := ElementPairs(naming, left, right);
    var links := LinkPairs(pairs, left.links, right.links);
    LinkPairsFit(pairs, left.links, right.links);
    var shared := Shared(links, left.links, right.links);
    d := PipelineDiff(LeftOver(pairs), RightOver(pairs, |right.elements|), LeftOver(links),
                      RightOver(links, |right.links|), shared, Match);
    if SomeReal(shared) {
      d := d.(verdict := Differs);
    } else if IsOneSided(d) || SomeInformational(shared) {
      d := d.(verdict := Informational);
    }
  }

  /** Names that match transitively, and links that every renaming keeps: then all orders match. */
  lemma KeptLinksMatch(naming: Naming, g: PipelineGraph, p: Order, q: Order, d: PipelineDiff)
    requires IsLikeness(naming) && g.WellFormed() && IsTransitiveOn(naming, g.elements)
    requires RenamingsKeepLinks(naming, g)
    requires IsOrder(p, |g.elements|) && IsOrder(q, |g.elements|)
    requires IsDiff(naming, Renumbered(g, p), Renumbered(g, q), d)
    ensures d.verdict == Match
  {
    var left, right := Renumbered(g, p), Renumbered(g, q);
    ReorderedHasTheSame(g.elements, left.elements, p);
    ReorderedHasTheSame(g.elements, right.elements, q);
    forall x | x in left.elements
      ensures x in g.elements
    {
      assert x in multiset(left.elements);
    }
    TransitivePairsAll(naming, left.elements, right.elements);
    assert IsTotal(ElementPairs(naming, left, right), |g.elements|);
    var s := TakenByPairs(naming, g, p, q);
    VerdictOfOrders(naming, g, p, q, s, d);
  }

  /** Names that do not: the orders that leave elements over. */
  lemma UntransitiveDoesNotMatch(naming: Naming, g: PipelineGraph)
    requires IsLikeness(naming) && g.WellFormed() && !IsTransitiveOn(naming, g.elements)
    ensures !OrderNeverMatters(naming, g)
  {
    HarmlessIffTransitive(naming, g.elements);
    var left: Elements, right: Elements :|
      multiset(left) == multiset(g.elements) == multiset(right) && !PairsAll(naming, left, right);
    var p := SameIsReordered(g.elements, left);
    var q := SameIsReordered(g.elements, right);
    ReorderedIs(g, left, p);
    ReorderedIs(g, right, q);
    var d := SomeDiff(naming, Renumbered(g, p), Renumbered(g, q));
    MatchMeans(naming, Renumbered(g, p), Renumbered(g, q), d);
    assert !MatchInOrders(naming, g, p, q, d);
  }

  lemma ReorderedIs(g: PipelineGraph, elements: Elements, p: Order)
    requires g.WellFormed() && Reorders(g.elements, elements, p)
    ensures Renumbered(g, p).elements == elements
  {
    var n, r := |g.elements|, Renumbered(g, p);
    forall k: nat | k < n
      ensures r.elements[k] == elements[k]
    {
      var i := Origin(p, n, k);
      assert r.elements[p[i]] == g.elements[i] == elements[p[i]];
    }
  }

  /** A renaming that does not keep the links: the order it gives, against the order as it is. */
  lemma LostLinksDoNotMatch(naming: Naming, g: PipelineGraph, s: Order)
    requires IsLikeness(naming) && g.WellFormed() && IsRenaming(naming, g, s) && !KeepsLinks(g, s)
    ensures !OrderNeverMatters(naming, g)
  {
    var q := Unmoved(|g.elements|);
    PairedAsTaken(naming, g, s, q);
    var d := SomeDiff(naming, Renumbered(g, s), Renumbered(g, q));
    VerdictOfOrders(naming, g, s, q, s, d);
    assert !MatchInOrders(naming, g, s, q, d);
  }

  /** Place by place the elements match, so they are paired. */
  lemma PairedAsTaken(naming: Naming, g: PipelineGraph, s: Order, q: Order)
    requires g.WellFormed() && IsRenaming(naming, g, s) && q == Unmoved(|g.elements|)
    ensures var pairs := ElementPairs(naming, Renumbered(g, s), Renumbered(g, q));
            IsTotal(pairs, |g.elements|) && PairsBy(pairs, |g.elements|, s, q, s)
  {
    var n, left, right := |g.elements|, Renumbered(g, s), Renumbered(g, q);
    var fits := ElementFit(naming, left.elements, right.elements);
    forall i: nat | i < n
      ensures fits(i, i)
    {
      var a := Origin(s, n, i);
      assert left.elements[s[a]] == g.elements[a] && right.elements[q[i]] == g.elements[i];
      assert naming(g.elements[a].name, g.elements[s[a]].name);
    }
    SelfIsIdentity(fits, n, n);
    IdentityIsTotal(ElementPairs(naming, left, right));
  }

  /** The order of a pipeline's elements never matters if and only if its names match transitively and every renaming
      within matching names takes links to links that compare clean. */
  lemma OrderNeverMattersIff(naming: Naming, g: PipelineGraph)
    requires IsLikeness(naming) && g.WellFormed()
    ensures OrderNeverMatters(naming, g) <==> IsTransitiveOn(naming, g.elements) && RenamingsKeepLinks(naming, g)
  {
    if !IsTransitiveOn(naming, g.elements) {
      UntransitiveDoesNotMatch(naming, g);
    } else if !RenamingsKeepLinks(naming, g) {
      var s :| IsRenaming(naming, g, s) && !KeepsLinks(g, s);
      LostLinksDoNotMatch(naming, g, s);
    } else {
      forall p, q, d | IsOrder(p, |g.elements|) && IsOrder(q, |g.elements|)
        ensures MatchInOrders(naming, g, p, q, d)
      {
        if IsDiff(naming, Renumbered(g, p), Renumbered(g, q), d) {
          KeptLinksMatch(naming, g, p, q, d);
        }
      }
    }
  }

  /** For the names and synonyms the engines use. */
  lemma OrderNeverMattersByName(synonyms: ElementNames.Synonyms, g: PipelineGraph)
    requires g.WellFormed()
    ensures var naming := Names(synonyms);
            OrderNeverMatters(naming, g) <==> IsTransitiveOn(naming, g.elements) && RenamingsKeepLinks(naming, g)
  {
    NamesAreLike(synonyms);
    OrderNeverMattersIff(Names(synonyms), g);
  }

  // ----- two cases -----

  /** No two elements match. */
  ghost predicate AreNamedApart(naming: Naming, elements: Elements) {
    forall a, b :: 0 <= a < b < |elements| ==> !naming(elements[a].name, elements[b].name)
  }

  /** Then the order never matters: nothing can be renamed. */
  lemma NamedApartNeverMatters(naming: Naming, g: PipelineGraph)
    requires IsLikeness(naming) && g.WellFormed() && AreNamedApart(naming, g.elements)
    ensures OrderNeverMatters(naming, g)
  {
    forall s | IsRenaming(naming, g, s)
      ensures KeepsLinks(g, s)
    {
      forall a: nat, b: nat | a < |s| && b < |s|
        ensures KeepsLinksBetween(g, s, a, b)
      {
        OnlyItself(naming, g, s, a);
        OnlyItself(naming, g, s, b);
        ComparesWithItself(CapsBetween(g.links, a, b));
      }
    }
    OrderNeverMattersIff(naming, g);
  }

  lemma OnlyItself(naming: Naming, g: PipelineGraph, s: Order, a: nat)
    requires IsLikeness(naming) && AreNamedApart(naming, g.elements) && IsRenaming(naming, g, s) && a < |s|
    ensures s[a] == a
  {
    var x, y := g.elements[a].name, g.elements[s[a]].name;
    assert naming(x, y) && naming(y, x);
  }

  lemma ComparesWithItself(caps: seq<Option<Caps>>)
    ensures CompareClean(caps, caps)
  {
    forall k | 0 <= k < |caps|
      ensures Compared(caps[k], caps[k]).IsClean()
    {
      CleanMeans(caps[k], caps[k]);
    }
  }

  /** Two elements match, and swapping them does not keep the links: then it matters. */
  lemma SwapMatters(naming: Naming, g: PipelineGraph, a: nat, b: nat)
    requires IsLikeness(naming) && g.WellFormed() && a < b < |g.elements|
    requires naming(g.elements[a].name, g.elements[b].name) && !KeepsLinks(g, Swapped(|g.elements|, a, b))
    ensures !OrderNeverMatters(naming, g)
  {
    var s := Swapped(|g.elements|, a, b);
    forall i | 0 <= i < |s|
      ensures naming(g.elements[i].name, g.elements[s[i]].name)
    {
      assert naming(g.elements[b].name, g.elements[a].name);
    }
    LostLinksDoNotMatch(naming, g, s);
  }

  /** Two queues with a sink each. */
  function TwoBranches(queue: Element, sink: Element, other: Element): (g: PipelineGraph)
    ensures g.WellFormed() && |g.elements| == 4
  {
    PipelineGraph([queue, queue, sink, other], [Link(0, 2, None), Link(1, 3, None)])
  }

  /** The same with the two queues in the other order. */
  function QueuesSwapped(queue: Element, sink: Element, other: Element): (g: PipelineGraph)
    ensures g.WellFormed() && |g.elements| == 4
  {
    PipelineGraph([queue, queue, sink, other], [Link(1, 2, None), Link(0, 3, None)])
  }

  lemma SwappedQueues(queue: Element, sink: Element, other: Element)
    ensures QueuesSwapped(queue, sink, other) == Renumbered(TwoBranches(queue, sink, other), Swapped(4, 0, 1))
  {
    RenumberedIs(TwoBranches(queue, sink, other), QueuesSwapped(queue, sink, other), 0, 1);
  }

  /** Two equal elements are swapped. */
  lemma RenumberedIs(g: PipelineGraph, h: PipelineGraph, a: nat, b: nat)
    requires g.WellFormed() && h.elements == g.elements && a < |g.elements| && b < |g.elements|
    requires g.elements[a] == g.elements[b] && |h.links| == |g.links|
    requires var p := Swapped(|g.elements|, a, b);
             forall i :: 0 <= i < |g.links| ==>
               h.links[i] == Link(p[g.links[i].from], p[g.links[i].to], g.links[i].caps)
    ensures h == Renumbered(g, Swapped(|g.elements|, a, b))
  {
    var p := Swapped(|g.elements|, a, b);
    ReorderedIs(g, h.elements, p);
    assert MapLinks(g.links, p) == h.links;
  }

  /** All elements are paired in every order, but with the queues swapped the pipelines do not match. */
  lemma TwoQueues(naming: Naming, queue: Element, sink: Element, other: Element, d: PipelineDiff)
    requires IsLikeness(naming) && AreNamedApart(naming, [queue, sink, other])
    requires IsDiff(naming, TwoBranches(queue, sink, other), QueuesSwapped(queue, sink, other), d)
    ensures OrderIsHarmless(naming, TwoBranches(queue, sink, other).elements)
    ensures d.verdict != Match
  {
    QueuesAreTransitive(naming, queue, sink, other);
    HarmlessIffTransitive(naming, TwoBranches(queue, sink, other).elements);
    FirstLinksDoNotFit(naming, TwoBranches(queue, sink, other), QueuesSwapped(queue, sink, other), d);
  }

  /** The same elements pair place by place, and no link on the right joins what the first on the left does. */
  lemma FirstLinksDoNotFit(naming: Naming, left: PipelineGraph, right: PipelineGraph, d: PipelineDiff)
    requires IsLikeness(naming) && left.WellFormed() && left.elements == right.elements && left.links != []
    requires forall j :: 0 <= j < |right.links| ==> !Joins(right.links[j], left.links[0].from, left.links[0].to)
    requires IsDiff(naming, left, right, d)
    ensures d.verdict != Match
  {
    ElementsPairWithThemselves(naming, left);
    if d.verdict == Match {
      MatchRenames(naming, left, right, d, 0);
      assert false;
    }
  }

  lemma QueuesAreTransitive(naming: Naming, queue: Element, sink: Element, other: Element)
    requires IsLikeness(naming) && AreNamedApart(naming, [queue, sink, other])
    ensures IsTransitiveOn(naming, TwoBranches(queue, sink, other).elements)
  {
    var elements, names := TwoBranches(queue, sink, other).elements, [queue, sink, other];
    forall x, y, z | x in elements && y in elements && z in elements
      ensures IsTransitiveAt(naming, x, y, z)
    {
      assert x in names && y in names;
      if naming(x.name, y.name) {
        ApartMatchThemselves(naming, names, x, y);
      }
    }
  }

  /** Such names: those of a queue and two sinks. */
  lemma SinksAreNamedApart()
    ensures AreNamedApart(Names([]), [Element("queue"), Element("asink"), Element("bsink")])
  {
    var queue, sink, other := "queue", "asink", "bsink";
    assert queue[0] == 'q' && sink[0] == 'a' && other[0] == 'b';
    ElementNames.SameLengthApart(queue, sink);
    ElementNames.SameLengthApart(queue, other);
    ElementNames.SameLengthApart(sink, other);
  }

  lemma ApartMatchThemselves(naming: Naming, names: Elements, x: Element, y: Element)
    requires IsLikeness(naming) && AreNamedApart(naming, names) && x in names && y in names && naming(x.name, y.name)
    ensures x == y
  {
    var i :| 0 <= i < |names| && names[i] == x;
    var j :| 0 <= j < |names| && names[j] == y;
    assert naming(y.name, x.name);
  }
}
