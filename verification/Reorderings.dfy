/** When the order of the elements matters to how crates/calliope-core/src/pipeline_diff.rs pairs them. */
module Reorderings {
  import opened Prelude
  import opened PipelineGraphs
  import opened GreedyPairs
  import opened PipelineDiffs
  import ElementNames

  type Elements = seq<Element>

  function PairsOf(naming: Naming, left: Elements, right: Elements): (pairs: Pairs)
    ensures |pairs| == |left|
  {
    Greedy(ElementFit(naming, left, right), |left|, |right|)
  }

  ghost predicate PairsAll(naming: Naming, left: Elements, right: Elements) {
    IsTotal(PairsOf(naming, left, right), |right|)
  }

  /** However the elements are ordered on either side, all are paired. */
  ghost predicate OrderIsHarmless(naming: Naming, elements: Elements) {
    forall left: Elements, right: Elements ::
      multiset(left) == multiset(elements) == multiset(right) ==> PairsAll(naming, left, right)
  }

  ghost predicate IsTransitiveOn(naming: Naming, elements: Elements) {
    forall x, y, z :: x in elements && y in elements && z in elements ==> IsTransitiveAt(naming, x, y, z)
  }

  predicate IsTransitiveAt(naming: Naming, x: Element, y: Element, z: Element) {
    naming(x.name, y.name) && naming(y.name, z.name) ==> naming(x.name, z.name)
  }

  ghost predicate IsLikeness(naming: Naming) {
    forall x, y :: naming(x, x) && (naming(x, y) ==> naming(y, x))
  }

  // ----- an order that leaves elements over -----

  lemma Remove(s: Elements, x: Element) returns (r: Elements)
    requires x in s
    ensures multiset(r) + multiset{x} == multiset(s) && |r| == |s| - 1
    ensures forall y :: y != x && y in s ==> y in r
  {
    var i :| 0 <= i < |s| && s[i] == x;
    r := s[..i] + s[i + 1..];
    assert s == s[..i] + [s[i]] + s[i + 1..];
  }

  lemma RemoveThree(s: Elements, x: Element, y: Element, z: Element) returns (r: Elements)
    requires x in s && y in s && z in s && x != y && y != z && x != z
    ensures multiset(r) + multiset{x, y, z} == multiset(s)
  {
    var one := Remove(s, x);
    var two := Remove(one, y);
    r := Remove(two, z);
    assert multiset{x, y, z} == multiset{z} + multiset{y} + multiset{x};
  }

  /** u matches both v and w, which do not match each other. On the left u comes first and v last, on the right v first
      and w last. Then u takes v, w takes u, and the last two do not match. */
  lemma BadOrder(naming: Naming, u: Element, v: Element, w: Element, rest: Elements)
    requires IsLikeness(naming)
    requires naming(u.name, v.name) && naming(u.name, w.name) && !naming(v.name, w.name)
    ensures var left, right := [u, w] + rest + [v], [v, u] + rest + [w];
            && PairsOf(naming, left, right) == seq(|rest| + 2, i => Some(i)) + [None]
            && multiset(left) == multiset(right) == multiset(rest) + multiset{u, v, w}
  {
    var left, right := [u, w] + rest + [v], [v, u] + rest + [w];
    var n := |rest| + 2;
    var fits, pairs := ElementFit(naming, left, right), seq(n, i => Some(i)) + [None];
    forall i: nat | i < n
      ensures fits(i, i)
    {
      assert i >= 2 ==> left[i] == rest[i - 2] == right[i];
    }
    assert !fits(n, n);
    AllButTheLast(fits, pairs, n);
    GreedyMeans(fits, n + 1, pairs);
  }

  lemma AllButTheLast(fits: Fit, pairs: Pairs, n: nat)
    requires pairs == seq(n, i => Some(i)) + [None]
    requires !fits(n, n) && forall i: nat :: i < n ==> fits(i, i)
    ensures IsGreedy(fits, n + 1, pairs)
  {
    forall i: nat, j: nat | j < i < |pairs|
      ensures Taken(pairs[..i], j)
    {
      assert pairs[..i][j] == Some(j);
    }
  }

  lemma UntransitiveIsHarmful(naming: Naming, elements: Elements, x: Element, y: Element, z: Element)
    requires IsLikeness(naming) && x in elements && y in elements && z in elements && !IsTransitiveAt(naming, x, y, z)
    ensures !OrderIsHarmless(naming, elements)
  {
    var rest := RemoveThree(elements, y, x, z);
    BadOrder(naming, y, x, z, rest);
    var left, right := [y, z] + rest + [x], [x, y] + rest + [z];
    assert PairsOf(naming, left, right)[|rest| + 2].None?;
    assert !PairsAll(naming, left, right);
  }

  // ----- counting -----

  type Kind = Element -> bool

  function Count(elements: Elements, kind: Kind): nat {
    if elements == [] then 0
    else Count(elements[..|elements| - 1], kind) + if kind(elements[|elements| - 1]) then 1 else 0
  }

  lemma {:induction false} CountOfBoth(a: Elements, b: Elements, kind: Kind)
    ensures Count(a + b, kind) == Count(a, kind) + Count(b, kind)
    decreases |b|
  {
    if b == [] {
      assert a + b == a;
    } else {
      assert (a + b)[..|a + b| - 1] == a + b[..|b| - 1];
      CountOfBoth(a, b[..|b| - 1], kind);
    }
  }

  lemma {:induction false} CountIgnoresOrder(a: Elements, b: Elements, kind: Kind)
    requires multiset(a) == multiset(b)
    ensures Count(a, kind) == Count(b, kind) && |a| == |b|
    decreases |a|
  {
    assert |multiset(a)| == |multiset(b)|;
    if a != [] {
      var n := |a| - 1;
      var rest := TakeOut(b, a[n], multiset(a));
      assert a == a[..n] + [a[n]];
      assert multiset(a[..n]) == multiset(a) - multiset{a[n]};
      CountIgnoresOrder(a[..n], rest, kind);
      CountWithout(b, rest, a[n], kind);
    }
  }

  lemma TakeOut(b: Elements, x: Element, all: multiset<Element>) returns (rest: Elements)
    requires multiset(b) == all && all[x] > 0
    ensures multiset(rest) == all - multiset{x} && IsWithout(b, rest, x)
  {
    assert x in b;
    var i :| 0 <= i < |b| && b[i] == x;
    rest := b[..i] + b[i + 1..];
    assert b == b[..i] + [b[i]] + b[i + 1..];
    assert IsWithoutAt(b, rest, x, i);
  }

  ghost predicate IsWithoutAt(b: Elements, rest: Elements, x: Element, i: int) {
    0 <= i < |b| && b[i] == x && rest == b[..i] + b[i + 1..]
  }

  ghost predicate IsWithout(b: Elements, rest: Elements, x: Element) {
    exists i :: IsWithoutAt(b, rest, x, i)
  }

  lemma {:induction false} CountWithout(b: Elements, rest: Elements, x: Element, kind: Kind)
    requires IsWithout(b, rest, x)
    ensures Count(b, kind) == Count(rest, kind) + if kind(x) then 1 else 0
  {
    var i :| IsWithoutAt(b, rest, x, i);
    assert b == b[..i] + [x] + b[i + 1..];
    CountOfBoth(b[..i], b[i + 1..], kind);
    CountOfBoth(b[..i], [x], kind);
    CountOfBoth(b[..i] + [x], b[i + 1..], kind);
  }

  /** The places of this kind. */
  ghost function Places(elements: Elements, kind: Kind): set<nat> {
    set j: nat | j < |elements| && kind(elements[j])
  }

  lemma {:induction false} PlacesAreCounted(elements: Elements, kind: Kind)
    ensures |Places(elements, kind)| == Count(elements, kind)
  {
    if elements != [] {
      var n := |elements| - 1;
      PlacesAreCounted(elements[..n], kind);
      assert Places(elements, kind) == Places(elements[..n], kind) + if kind(elements[n]) then {n} else {};
    }
  }

  /** The places of this kind that are paired. */
  ghost function TakenPlaces(elements: Elements, kind: Kind, pairs: Pairs): set<nat> {
    set j: nat | j < |elements| && kind(elements[j]) && Taken(pairs, j)
  }

  /** How many of the first n elements are of this kind and paired. */
  function PairedCount(left: Elements, kind: Kind, pairs: Pairs): nat
    requires |pairs| <= |left|
  {
    if pairs == [] then 0
    else
      var i := |pairs| - 1;
      PairedCount(left, kind, pairs[..i]) + if pairs[i].Some? && kind(left[i]) then 1 else 0
  }

  /** Pairs stay within the kind. */
  ghost predicate KindIsKept(left: Elements, right: Elements, kind: Kind, pairs: Pairs) {
    && |pairs| <= |left|
    && forall i: nat :: i < |pairs| && pairs[i].Some? ==>
         pairs[i].value < |right| && kind(left[i]) == kind(right[pairs[i].value])
  }

  lemma {:induction false} TakenAreCounted(left: Elements, right: Elements, kind: Kind, pairs: Pairs)
    requires OneToOne(pairs) && KindIsKept(left, right, kind, pairs)
    ensures |TakenPlaces(right, kind, pairs)| == PairedCount(left, kind, pairs)
  {
    if pairs != [] {
      var n := |pairs| - 1;
      var front := pairs[..n];
      TakenAreCounted(left, right, kind, front);
      OneMoreTaken(left, right, kind, pairs);
    }
  }

  lemma OneMoreTaken(left: Elements, right: Elements, kind: Kind, pairs: Pairs)
    requires pairs != [] && OneToOne(pairs) && KindIsKept(left, right, kind, pairs)
    ensures var n := |pairs| - 1;
            |TakenPlaces(right, kind, pairs)|
            == |TakenPlaces(right, kind, pairs[..n])| + if pairs[n].Some? && kind(left[n]) then 1 else 0
  {
    var n := |pairs| - 1;
    var front := pairs[..n];
    assert pairs == front + [pairs[n]];
    if pairs[n].Some? {
      assert !Taken(front, pairs[n].value);
      PlaceIsTaken(right, kind, front, pairs[n].value);
    } else {
      NoneTaken(front);
      assert TakenPlaces(right, kind, pairs) == TakenPlaces(right, kind, front);
    }
  }

  lemma PlaceIsTaken(right: Elements, kind: Kind, front: Pairs, j: nat)
    requires j < |right| && !Taken(front, j)
    ensures |TakenPlaces(right, kind, front + [Some(j)])|
            == |TakenPlaces(right, kind, front)| + if kind(right[j]) then 1 else 0
  {
    TakenOneMore(front, j);
    if kind(right[j]) {
      assert TakenPlaces(right, kind, front + [Some(j)]) == TakenPlaces(right, kind, front) + {j};
    } else {
      assert TakenPlaces(right, kind, front + [Some(j)]) == TakenPlaces(right, kind, front);
    }
  }

  lemma TakenOneMore(front: Pairs, j: nat)
    ensures forall k :: Taken(front + [Some(j)], k) <==> Taken(front, k) || k == j
  {
  }

  lemma NoneTaken(front: Pairs)
    ensures forall k :: Taken(front + [None], k) <==> Taken(front, k)
  {
  }

  lemma {:induction false} OneUnpairedIsMissing(left: Elements, kind: Kind, pairs: Pairs, i: nat)
    requires i < |pairs| <= |left| && pairs[i].None? && kind(left[i])
    ensures PairedCount(left, kind, pairs) < Count(left[..|pairs|], kind)
  {
    var n := |pairs| - 1;
    assert left[..|pairs|][..n] == left[..n];
    if i < n {
      OneUnpairedIsMissing(left, kind, pairs[..n], i);
    } else {
      PairedAtMostAll(left, kind, pairs[..n]);
    }
  }

  lemma {:induction false} PairedAtMostAll(left: Elements, kind: Kind, pairs: Pairs)
    requires |pairs| <= |left|
    ensures PairedCount(left, kind, pairs) <= Count(left[..|pairs|], kind)
  {
    if pairs != [] {
      var n := |pairs| - 1;
      assert left[..|pairs|][..n] == left[..n];
      PairedAtMostAll(left, kind, pairs[..n]);
    }
  }

  lemma SmallerOrAll<T>(a: set<T>, b: set<T>)
    requires a <= b && |a| >= |b|
    ensures a == b
  {
    assert b == a + (b - a);
  }

  // ----- no order leaves elements over -----

  /** Everything like `e`. */
  function LikeIt(naming: Naming, e: Element): Kind {
    (x: Element) => naming(e.name, x.name)
  }

  lemma PairsKeepTheClass(naming: Naming, left: Elements, right: Elements, e: Element)
    requires IsLikeness(naming) && IsTransitiveOn(naming, left) && multiset(left) == multiset(right) && e in left
    ensures KindIsKept(left, right, LikeIt(naming, e), PairsOf(naming, left, right))
  {
    var pairs := PairsOf(naming, left, right);
    GreedyMeans(ElementFit(naming, left, right), |right|, pairs);
    forall i: nat | i < |pairs| && pairs[i].Some?
      ensures naming(e.name, left[i].name) == naming(e.name, right[pairs[i].value].name)
    {
      var x, y := left[i], right[pairs[i].value];
      assert y in multiset(right);
      assert IsTransitiveAt(naming, e, x, y) && IsTransitiveAt(naming, e, y, x);
    }
  }

  lemma EveryLeftIsPaired(naming: Naming, left: Elements, right: Elements, i: nat)
    requires IsLikeness(naming) && IsTransitiveOn(naming, left) && multiset(left) == multiset(right) && i < |left|
    ensures PairsOf(naming, left, right)[i].Some?
  {
    var pairs, kind := PairsOf(naming, left, right), LikeIt(naming, left[i]);
    GreedyMeans(ElementFit(naming, left, right), |right|, pairs);
    PairsKeepTheClass(naming, left, right, left[i]);
    TakenAreCounted(left, right, kind, pairs);
    PlacesAreCounted(right, kind);
    CountIgnoresOrder(left, right, kind);
    assert left[..|left|] == left;
    if pairs[i].None? {
      OneUnpairedIsMissing(left, kind, pairs, i);
      AllLikeItAreTaken(naming, left, right, i);
    }
  }

  /** What an element that is left over could be paired with has been taken. */
  lemma AllLikeItAreTaken(naming: Naming, left: Elements, right: Elements, i: nat)
    requires i < |left| && PairsOf(naming, left, right)[i].None?
    ensures var kind := LikeIt(naming, left[i]);
            TakenPlaces(right, kind, PairsOf(naming, left, right)) == Places(right, kind)
  {
    var pairs, kind := PairsOf(naming, left, right), LikeIt(naming, left[i]);
    var fits := ElementFit(naming, left, right);
    GreedyMeans(fits, |right|, pairs);
    forall j: nat | j < |right| && kind(right[j])
      ensures Taken(pairs, j)
    {
      assert fits(i, j) && Taken(pairs[..i], j);
    }
  }

  lemma {:induction false} AllPairedAreCounted(left: Elements, kind: Kind, pairs: Pairs)
    requires |pairs| <= |left| && (forall e :: kind(e)) && forall i :: 0 <= i < |pairs| ==> pairs[i].Some?
    ensures PairedCount(left, kind, pairs) == |pairs|
  {
    if pairs != [] {
      AllPairedAreCounted(left, kind, pairs[..|pairs| - 1]);
    }
  }

  lemma {:induction false} AllAreCounted(elements: Elements, kind: Kind)
    requires forall e :: kind(e)
    ensures Count(elements, kind) == |elements|
  {
    if elements != [] {
      AllAreCounted(elements[..|elements| - 1], kind);
    }
  }

  lemma TransitiveIsHarmless(naming: Naming, elements: Elements)
    requires IsLikeness(naming) && IsTransitiveOn(naming, elements)
    ensures OrderIsHarmless(naming, elements)
  {
    forall left: Elements, right: Elements | multiset(left) == multiset(elements) == multiset(right)
      ensures PairsAll(naming, left, right)
    {
      forall x | x in left
        ensures x in elements
      {
        assert x in multiset(left);
      }
      TransitivePairsAll(naming, left, right);
    }
  }

  lemma TransitivePairsAll(naming: Naming, left: Elements, right: Elements)
    requires IsLikeness(naming) && IsTransitiveOn(naming, left) && multiset(left) == multiset(right)
    ensures PairsAll(naming, left, right)
  {
    var pairs := PairsOf(naming, left, right);
    forall i | 0 <= i < |pairs|
      ensures pairs[i].Some?
    {
      EveryLeftIsPaired(naming, left, right, i);
    }
    var any: Kind := (e: Element) => true;
    GreedyMeans(ElementFit(naming, left, right), |right|, pairs);
    TakenAreCounted(left, right, any, pairs);
    AllPairedAreCounted(left, any, pairs);
    PlacesAreCounted(right, any);
    CountIgnoresOrder(left, right, any);
    AllAreCounted(right, any);
    SmallerOrAll(TakenPlaces(right, any, pairs), Places(right, any));
    forall j: nat | j < |right|
      ensures Taken(pairs, j)
    {
      assert j in Places(right, any);
    }
  }

  /** The order of the elements never leaves one over if and only if the names of the list match transitively. */
  lemma HarmlessIffTransitive(naming: Naming, elements: Elements)
    requires IsLikeness(naming)
    ensures OrderIsHarmless(naming, elements) <==> IsTransitiveOn(naming, elements)
  {
    if IsTransitiveOn(naming, elements) {
      TransitiveIsHarmless(naming, elements);
    } else {
      var x, y, z :| x in elements && y in elements && z in elements && !IsTransitiveAt(naming, x, y, z);
      UntransitiveIsHarmful(naming, elements, x, y, z);
    }
  }

  lemma NamesAreLike(synonyms: ElementNames.Synonyms)
    ensures IsLikeness(Names(synonyms))
  {
    forall x, y
      ensures Names(synonyms)(x, x) && (Names(synonyms)(x, y) ==> Names(synonyms)(y, x))
    {
      ElementNames.SameElementIsSymmetric(synonyms, x, y);
    }
  }

  /** For the names and synonyms the engines use. */
  lemma OrderMattersUnlessTransitive(synonyms: ElementNames.Synonyms, elements: Elements)
    ensures OrderIsHarmless(Names(synonyms), elements) <==> IsTransitiveOn(Names(synonyms), elements)
  {
    NamesAreLike(synonyms);
    HarmlessIffTransitive(Names(synonyms), elements);
  }

  /** A name and two instances of it, in two orders: the bare name takes an instance, that instance of the left side the
      bare name, and two instances are left over. So pipelines that differ only in the order of their elements may not
      match. */
  lemma {:induction false} GreedyMayLeaveElements(name: string, digits: string, others: string, d: PipelineDiff)
    requires ElementNames.Canonical(name) != [] && AllDigits(digits) && AllDigits(others)
    requires |digits| == |others| && digits != others
    requires IsDiff(Names([]), PipelineGraph([Element(name), Element(name + digits), Element(name + others)], []),
                    PipelineGraph([Element(name + others), Element(name), Element(name + digits)], []), d)
    ensures d.elementsOnlyLeft == [2] && d.elementsOnlyRight == [2] && d.verdict == Informational
  {
    var bare, one, other := Element(name), Element(name + digits), Element(name + others);
    TheirNames(name, digits, others);
    NamesAreLike([]);
    ThreeInTwoOrders(Names([]), bare, one, other, d);
  }

  lemma {:induction false} TheirNames(name: string, digits: string, others: string)
    requires ElementNames.Canonical(name) != [] && AllDigits(digits) && AllDigits(others)
    requires |digits| == |others| && digits != others
    ensures var same := Names([]);
            same(name, name + digits) && same(name, name + others) && !same(name + others, name + digits)
  {
    ElementNames.InstancesDoNotMatch(name, others, digits);
    ElementNames.InstanceMatches(name, digits);
  }

  lemma ThreeInTwoOrders(naming: Naming, u: Element, w: Element, v: Element, d: PipelineDiff)
    requires IsLikeness(naming)
    requires naming(u.name, w.name) && naming(u.name, v.name) && !naming(v.name, w.name)
    requires IsDiff(naming, PipelineGraph([u, w, v], []), PipelineGraph([v, u, w], []), d)
    ensures d.elementsOnlyLeft == [2] && d.elementsOnlyRight == [2] && d.verdict == Informational
  {
    ThreePairs(naming, u, w, v);
    TwoPairs(PairsOf(naming, [u, w, v], [v, u, w]));
    assert HasItsVerdict(d) && d.links == [];
  }

  lemma ThreePairs(naming: Naming, u: Element, w: Element, v: Element)
    requires IsLikeness(naming)
    requires naming(u.name, w.name) && naming(u.name, v.name) && !naming(v.name, w.name)
    ensures PairsOf(naming, [u, w, v], [v, u, w]) == seq(2, i => Some(i)) + [None]
  {
    BadOrder(naming, u, v, w, []);
    assert [u, w, v] == [u, w] + [] + [v];
    assert [v, u, w] == [v, u] + [] + [w];
  }

  lemma {:induction false} TwoPairs(pairs: Pairs)
    requires pairs == seq(2, i => Some(i)) + [None]
    ensures LeftOver(pairs) == [2] && RightOver(pairs, 3) == [2]
  {
    assert pairs == [Some(0), Some(1), None];
    assert pairs[..2] == [Some(0), Some(1)] && pairs[..2][..1] == [Some(0)];
    assert Taken(pairs, 0) by { assert pairs[0] == Some(0); }
    assert Taken(pairs, 1) by { assert pairs[1] == Some(1); }
    assert RightOver(pairs, 1) == [] && RightOver(pairs, 2) == [];
    assert LeftOver([Some(0)]) == [] && LeftOver([Some(0), Some(1)]) == [];
  }
}
