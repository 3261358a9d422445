/** The diff between the pipelines two engines built, crates/calliope-core/src/pipeline_diff.rs: elements are paired by
    name, then links between paired elements, then the caps on each pair of links are compared. */
module PipelineDiffs {
  import opened Prelude
  import opened PipelineGraphs
  import opened GreedyPairs
  import opened CapsDiffs
  import ElementNames

  /** Whether two names mean the same element. */
  type Naming = (string, string) -> bool

  function Names(synonyms: ElementNames.Synonyms): Naming {
    (l, r) => ElementNames.SameElement(synonyms, l, r)
  }

  datatype Verdict = Match | Informational | Differs

  /** A link both engines built, by its place on either side. */
  datatype SharedLink = SharedLink(left: nat, right: nat, caps: CapsDiff)

  /** Elements and links of only one side are given by their places. */
  datatype PipelineDiff = PipelineDiff(elementsOnlyLeft: seq<nat>, elementsOnlyRight: seq<nat>, linksOnlyLeft: seq<nat>,
                                       linksOnlyRight: seq<nat>, links: seq<SharedLink>, verdict: Verdict)

  // ----- pairing elements -----

  function ElementFit(naming: Naming, left: seq<Element>, right: seq<Element>): Fit {
    (i: nat, j: nat) => i < |left| && j < |right| && naming(left[i].name, right[j].name)
  }

  function ElementPairs(naming: Naming, left: PipelineGraph, right: PipelineGraph): (pairs: Pairs)
    ensures |pairs| == |left.elements|
  {
    Greedy(ElementFit(naming, left.elements, right.elements), |left.elements|, |right.elements|)
  }

  ghost predicate AreInverse(pairs: Pairs, back: Pairs) {
    && (forall i: nat, j: nat :: i < |pairs| && pairs[i] == Some(j) ==> j < |back| && back[j] == Some(i))
    && (forall i: nat, j: nat :: j < |back| && back[j] == Some(i) ==> i < |pairs| && pairs[i] == Some(j))
  }

  lemma TakenIffBack(pairs: Pairs, back: Pairs, j: nat)
    requires AreInverse(pairs, back) && j < |back|
    ensures Taken(pairs, j) <==> back[j].Some?
  {
    if Taken(pairs, j) {
      var i :| 0 <= i < |pairs| && pairs[i] == Some(j);
    }
    if back[j].Some? {
      assert pairs[back[j].value] == Some(j);
    }
  }

  method FindElement(naming: Naming, left: seq<Element>, right: seq<Element>, ghost pairs: Pairs, i: nat,
                     back: array<Option<nat>>)
    returns (found: Option<nat>)
    requires i < |left| && back.Length == |right| && AreInverse(pairs, back[..])
    ensures found == FirstFree(ElementFit(naming, left, right), pairs, i, 0, |right|)
  {
    ghost var fits := ElementFit(naming, left, right);
    for j := 0 to |right|
      invariant FirstFree(fits, pairs, i, 0, |right|) == FirstFree(fits, pairs, i, j, |right|)
    {
      TakenIffBack(pairs, back[..], j);
      if back[j].None? && naming(left[i].name, right[j].name) {
        return Some(j);
      }
    }
    found := None;
  }

  lemma PairIsInverse(pairs: Pairs, back: Pairs, j: nat)
    requires AreInverse(pairs, back) && j < |back| && back[j].None?
    ensures AreInverse(pairs + [Some(j)], back[j := Some(|pairs|)])
  {
  }

  lemma NoPairIsInverse(pairs: Pairs, back: Pairs)
    requires AreInverse(pairs, back)
    ensures AreInverse(pairs + [None], back)
  {
  }

  /** Pairs element i with the first that is free and matches, if there is one. */
  method PairElement(naming: Naming, left: seq<Element>, right: seq<Element>, ghost pairs: Pairs, i: nat,
                     back: array<Option<nat>>)
    returns (found: Option<nat>)
    requires i < |left| && i == |pairs| && back.Length == |right| && AreInverse(pairs, back[..])
    modifies back
    ensures found == FirstFree(ElementFit(naming, left, right), pairs, i, 0, |right|)
    ensures AreInverse(pairs + [found], back[..])
  {
    ghost var before := back[..];
    found := FindElement(naming, left, right, pairs, i, back);
    if found.Some? {
      TakenIffBack(pairs, before, found.value);
      PairIsInverse(pairs, before, found.value);
      back[found.value] := Some(i);
      assert back[..] == before[found.value := Some(i)];
    } else {
      NoPairIsInverse(pairs, before);
    }
  }

  /** Pairs the element lists up by name, the first match wins: the pairs from left to right and those from right to
      left. */
  method MatchElements(naming: Naming, left: PipelineGraph, right: PipelineGraph)
    returns (leftToRight: array<Option<nat>>, rightToLeft: array<Option<nat>>)
    ensures leftToRight[..] == ElementPairs(naming, left, right)
    ensures rightToLeft.Length == |right.elements| && AreInverse(leftToRight[..], rightToLeft[..])
  {
    leftToRight := new Option<nat>[|left.elements|](_ => None);
    rightToLeft := new Option<nat>[|right.elements|](_ => None);
    ghost var pairs: Pairs := [];
    for i := 0 to |left.elements|
      invariant pairs == Greedy(ElementFit(naming, left.elements, right.elements), i, |right.elements|)
      invariant leftToRight[..i] == pairs
      invariant AreInverse(pairs, rightToLeft[..])
    {
      var found := PairElement(naming, left.elements, right.elements, pairs, i, rightToLeft);
      leftToRight[i] := found;
      pairs := pairs + [found];
    }
    assert leftToRight[..|left.elements|] == leftToRight[..];
  }

  // ----- pairing links -----

  /** The ends of a link on the other side, if both have been paired. */
  function Mapped(link: Link, pairs: Pairs): Option<(nat, nat)>
    requires link.from < |pairs| && link.to < |pairs|
  {
    if pairs[link.from].Some? && pairs[link.to].Some? then Some((pairs[link.from].value, pairs[link.to].value)) else None
  }

  predicate LinksFit(pairs: Pairs, left: Link, right: Link) {
    left.from < |pairs| && left.to < |pairs| && Mapped(left, pairs) == Some((right.from, right.to))
  }

  function LinkFit(pairs: Pairs, left: seq<Link>, right: seq<Link>): Fit {
    (i: nat, j: nat) => i < |left| && j < |right| && LinksFit(pairs, left[i], right[j])
  }

  function LinkPairs(pairs: Pairs, left: seq<Link>, right: seq<Link>): (links: Pairs)
    ensures |links| == |left|
  {
    Greedy(LinkFit(pairs, left, right), |left|, |right|)
  }

  ghost predicate InRange(links: Pairs, left: seq<Link>, right: seq<Link>) {
    |links| <= |left| && forall i :: 0 <= i < |links| && links[i].Some? ==> links[i].value < |right|
  }

  /** The pairs of links with how their caps compare. */
  function Shared(links: Pairs, left: seq<Link>, right: seq<Link>): seq<SharedLink>
    requires InRange(links, left, right)
  {
    if links == [] then []
    else
      var i := |links| - 1;
      Shared(links[..i], left, right)
      + if links[i].None? then []
        else [SharedLink(i, links[i].value, Compared(left[i].caps, right[links[i].value].caps))]
  }

  method FindLink(pairs: Pairs, left: seq<Link>, right: seq<Link>, ghost links: Pairs, i: nat,
                  rightMatched: array<bool>)
    returns (found: Option<nat>)
    requires i < |left| && left[i].from < |pairs| && left[i].to < |pairs|
    requires rightMatched.Length == |right| && Marks(rightMatched[..], links)
    ensures found == FirstFree(LinkFit(pairs, left, right), links, i, 0, |right|)
  {
    ghost var fits := LinkFit(pairs, left, right);
    var ends := Mapped(left[i], pairs);
    if ends.None? {
      return None;
    }
    for j := 0 to |right|
      invariant FirstFree(fits, links, i, 0, |right|) == FirstFree(fits, links, i, j, |right|)
    {
      assert rightMatched[..][j] == rightMatched[j];
      if !rightMatched[j] && right[j].from == ends.value.0 && right[j].to == ends.value.1 {
        return Some(j);
      }
    }
    found := None;
  }

  /** Which right links are paired. */
  ghost predicate Marks(matched: seq<bool>, links: Pairs) {
    forall j: nat :: j < |matched| ==> matched[j] == Taken(links, j)
  }

  lemma MarksOneMore(matched: seq<bool>, links: Pairs, more: Option<nat>)
    requires Marks(matched, links) && (more.Some? ==> more.value < |matched|)
    ensures Marks(if more.None? then matched else matched[more.value := true], links + [more])
  {
    forall j: nat
      ensures Taken(links + [more], j) <==> Taken(links, j) || more == Some(j)
    {
    }
  }

  lemma {:induction false} SharedOneMore(links: Pairs, more: Option<nat>, left: seq<Link>, right: seq<Link>)
    requires InRange(links, left, right) && |links| < |left| && (more.Some? ==> more.value < |right|)
    ensures InRange(links + [more], left, right)
    ensures LeftOver(links + [more]) == LeftOver(links) + if more.None? then [|links|] else []
    ensures Shared(links + [more], left, right) == Shared(links, left, right)
            + match SharedAt(|links|, more, left, right) { case None => [] case Some(link) => [link] }
  {
    var longer := links + [more];
    assert longer[..|longer| - 1] == links;
  }

  function SharedAt(i: nat, j: Option<nat>, left: seq<Link>, right: seq<Link>): Option<SharedLink>
    requires i < |left| && (j.Some? ==> j.value < |right|)
  {
    if j.None? then None else Some(SharedLink(i, j.value, Compared(left[i].caps, right[j.value].caps)))
  }

  /** Looks for the link that left link i is paired with, marks it, and compares the caps. */
  method MatchLink(pairs: Pairs, left: seq<Link>, right: seq<Link>, ghost links: Pairs, i: nat,
                   rightMatched: array<bool>)
    returns (shared: Option<SharedLink>, ghost found: Option<nat>)
    requires i < |left| && left[i].from < |pairs| && left[i].to < |pairs|
    requires rightMatched.Length == |right| && Marks(rightMatched[..], links)
    modifies rightMatched
    ensures found == FirstFree(LinkFit(pairs, left, right), links, i, 0, |right|)
    ensures shared == SharedAt(i, found, left, right)
    ensures Marks(rightMatched[..], links + [found])
  {
    var index := FindLink(pairs, left, right, links, i, rightMatched);
    found := index;
    MarksOneMore(rightMatched[..], links, index);
    match index
    case Some(j) =>
      ghost var matched := rightMatched[..];
      rightMatched[j] := true;
      assert rightMatched[..] == matched[j := true];
      var caps := CompareCaps(left[i].caps, right[j].caps);
      shared := Some(SharedLink(i, j, caps));
    case None =>
      shared := None;
  }

  /** Pairs the links up and compares their caps. A link is shared if both its ends have been paired and the other side
      has a link between those that no earlier link is paired with. */
  method MatchLinks(pairs: Pairs, left: seq<Link>, right: seq<Link>)
    returns (shared: seq<SharedLink>, onlyLeft: seq<nat>, rightMatched: array<bool>)
    requires forall i :: 0 <= i < |left| ==> left[i].from < |pairs| && left[i].to < |pairs|
    ensures var links := LinkPairs(pairs, left, right);
            && InRange(links, left, right)
            && shared == Shared(links, left, right)
            && onlyLeft == LeftOver(links)
            && rightMatched.Length == |right|
            && Marks(rightMatched[..], links)
  {
    shared, onlyLeft := [], [];
    rightMatched := new bool[|right|](_ => false);
    ghost var links: Pairs := [];
    for i := 0 to |left|
      invariant links == Greedy(LinkFit(pairs, left, right), i, |right|)
      invariant InRange(links, left, right)
      invariant shared == Shared(links, left, right)
      invariant onlyLeft == LeftOver(links)
      invariant Marks(rightMatched[..], links)
    {
      var next, found := MatchLink(pairs, left, right, links, i, rightMatched);
      SharedOneMore(links, found, left, right);
      links := links + [found];
      match next
      case Some(link) => shared := shared + [link];
      case None => onlyLeft := onlyLeft + [i];
    }
  }

  // ----- the diff -----

  predicate SomeReal(links: seq<SharedLink>) {
    exists i :: 0 <= i < |links| && links[i].caps.IsReal()
  }

  predicate SomeInformational(links: seq<SharedLink>) {
    exists i :: 0 <= i < |links| && links[i].caps.IsInformational()
  }

  predicate IsOneSided(d: PipelineDiff) {
    d.elementsOnlyLeft != [] || d.elementsOnlyRight != [] || d.linksOnlyLeft != [] || d.linksOnlyRight != []
  }

  predicate HasItsVerdict(d: PipelineDiff) {
    d.verdict == if SomeReal(d.links) then Differs
                 else if IsOneSided(d) || SomeInformational(d.links) then Informational
                 else Match
  }

  /** The diff of two pipelines: each part from the pairs, and the verdict from the parts. */
  ghost predicate IsDiff(naming: Naming, left: PipelineGraph, right: PipelineGraph, d: PipelineDiff) {
    var pairs := ElementPairs(naming, left, right);
    var links := LinkPairs(pairs, left.links, right.links);
    && InRange(links, left.links, right.links)
    && d.elementsOnlyLeft == LeftOver(pairs)
    && d.elementsOnlyRight == RightOver(pairs, |right.elements|)
    && d.linksOnlyLeft == LeftOver(links)
    && d.linksOnlyRight == RightOver(links, |right.links|)
    && d.links == Shared(links, left.links, right.links)
    && HasItsVerdict(d)
  }

  method Unmatched(back: array<Option<nat>>, ghost pairs: Pairs) returns (places: seq<nat>)
    requires forall j: nat :: j < back.Length ==> (back[j].Some? <==> Taken(pairs, j))
    ensures places == RightOver(pairs, back.Length)
  {
    places := [];
    for j := 0 to back.Length
      invariant places == RightOver(pairs, j)
    {
      if back[j].None? {
        places := places + [j];
      }
    }
  }

  method UnmatchedLeft(pairs: array<Option<nat>>) returns (places: seq<nat>)
    ensures places == LeftOver(pairs[..])
  {
    places := [];
    for i := 0 to pairs.Length
      invariant places == LeftOver(pairs[..i])
    {
      assert pairs[..i + 1][..i] == pairs[..i];
      if pairs[i].None? {
        places := places + [i];
      }
    }
    assert pairs[..pairs.Length] == pairs[..];
  }

  method UnmatchedLinks(rightMatched: array<bool>, ghost links: Pairs) returns (places: seq<nat>)
    requires Marks(rightMatched[..], links)
    ensures places == RightOver(links, rightMatched.Length)
  {
    places := [];
    for j := 0 to rightMatched.Length
      invariant places == RightOver(links, j)
    {
      assert rightMatched[..][j] == rightMatched[j];
      if !rightMatched[j] {
        places := places + [j];
      }
    }
  }

  method Diff(naming: Naming, left: PipelineGraph, right: PipelineGraph) returns (d: PipelineDiff)
    requires left.WellFormed()
    ensures IsDiff(naming, left, right, d)
  {
    var leftToRight, rightToLeft := MatchElements(naming, left, right);
    ghost var pairs := leftToRight[..];
    forall j: nat | j < rightToLeft.Length
      ensures rightToLeft[j].Some? <==> Taken(pairs, j)
    {
      TakenIffBack(pairs, rightToLeft[..], j);
    }
    var elementsOnlyLeft := UnmatchedLeft(leftToRight);
    var elementsOnlyRight := Unmatched(rightToLeft, pairs);
    var links, linksOnlyLeft, rightMatched := MatchLinks(leftToRight[..], left.links, right.links);
    var linksOnlyRight := UnmatchedLinks(rightMatched, LinkPairs(pairs, left.links, right.links));
    var differs := SomeReal(links);
    var informational := elementsOnlyLeft != [] || elementsOnlyRight != [] || linksOnlyLeft != [] || linksOnlyRight != []
                         || SomeInformational(links);
    var verdict := match (differs, informational) {
      case (true, _) => Differs
      case (false, true) => Informational
      case (false, false) => Match
    };
    d := PipelineDiff(elementsOnlyLeft, elementsOnlyRight, linksOnlyLeft, linksOnlyRight, links, verdict);
  }

  // ----- conservation -----

  function SharedLefts(shared: seq<SharedLink>): (r: seq<nat>)
    ensures |r| == |shared|
  {
    seq(|shared|, i requires 0 <= i < |shared| => shared[i].left)
  }

  function SharedRights(shared: seq<SharedLink>): (r: seq<nat>)
    ensures |r| == |shared|
  {
    seq(|shared|, i requires 0 <= i < |shared| => shared[i].right)
  }

  lemma {:induction false} SharedArePaired(links: Pairs, left: seq<Link>, right: seq<Link>)
    requires InRange(links, left, right)
    ensures SharedLefts(Shared(links, left, right)) == Lefts(Paired(links))
    ensures SharedRights(Shared(links, left, right)) == Rights(Paired(links))
  {
    if links != [] {
      var i := |links| - 1;
      SharedArePaired(links[..i], left, right);
      if links[i].Some? {
        LastOfBoth(Paired(links[..i]), (i, links[i].value));
        var shared := Shared(links[..i], left, right);
        var last := SharedLink(i, links[i].value, Compared(left[i].caps, right[links[i].value].caps));
        assert SharedLefts(shared + [last]) == SharedLefts(shared) + [last.left];
        assert SharedRights(shared + [last]) == SharedRights(shared) + [last.right];
      } else {
        assert Shared(links, left, right) == Shared(links[..i], left, right);
        assert Paired(links) == Paired(links[..i]);
      }
    }
  }

  /** Shared links and those of one side only are all that side's links, each once. */
  lemma LinksAreConserved(naming: Naming, left: PipelineGraph, right: PipelineGraph, d: PipelineDiff, i: nat)
    requires IsDiff(naming, left, right, d)
    ensures multiset(SharedLefts(d.links))[i] + multiset(d.linksOnlyLeft)[i] == if i < |left.links| then 1 else 0
    ensures multiset(SharedRights(d.links))[i] + multiset(d.linksOnlyRight)[i] == if i < |right.links| then 1 else 0
  {
    var pairs := ElementPairs(naming, left, right);
    var links := LinkPairs(pairs, left.links, right.links);
    GreedyMeans(LinkFit(pairs, left.links, right.links), |right.links|, links);
    SharedArePaired(links, left.links, right.links);
    LeftIsConserved(links, i);
    RightIsConserved(links, |right.links|, i);
  }

  /** So are the elements: what is not listed for one side only has been paired. */
  lemma ElementsAreConserved(naming: Naming, left: PipelineGraph, right: PipelineGraph, d: PipelineDiff, i: nat)
    requires IsDiff(naming, left, right, d)
    ensures var paired := Paired(ElementPairs(naming, left, right));
            && multiset(Lefts(paired))[i] + multiset(d.elementsOnlyLeft)[i] == (if i < |left.elements| then 1 else 0)
            && multiset(Rights(paired))[i] + multiset(d.elementsOnlyRight)[i] == (if i < |right.elements| then 1 else 0)
  {
    var pairs := ElementPairs(naming, left, right);
    GreedyMeans(ElementFit(naming, left.elements, right.elements), |right.elements|, pairs);
    LeftIsConserved(pairs, i);
    RightIsConserved(pairs, |right.elements|, i);
  }

  /** Element pairs are named the same, and no two elements left over are. */
  lemma ElementsArePairedByName(naming: Naming, left: PipelineGraph, right: PipelineGraph, i: nat, j: nat)
    requires i < |left.elements| && j < |right.elements|
    ensures var pairs := ElementPairs(naming, left, right);
            && (pairs[i] == Some(j) ==> naming(left.elements[i].name, right.elements[j].name))
            && (pairs[i].None? && !Taken(pairs, j) ==> !naming(left.elements[i].name, right.elements[j].name))
  {
    var fits, pairs := ElementFit(naming, left.elements, right.elements), ElementPairs(naming, left, right);
    GreedyMeans(fits, |right.elements|, pairs);
    if pairs[i].None? && !Taken(pairs, j) {
      LeftOversDoNotFit(fits, |right.elements|, pairs, i, j);
    }
  }

  // ----- what the verdict means -----

  ghost predicate IsTotal(pairs: Pairs, m: nat) {
    && (forall i :: 0 <= i < |pairs| ==> pairs[i].Some?)
    && (forall j: nat :: j < m ==> Taken(pairs, j))
  }

  ghost predicate AllClean(links: Pairs, left: seq<Link>, right: seq<Link>)
    requires InRange(links, left, right)
  {
    forall i :: 0 <= i < |links| ==> PairIsClean(links, left, right, i)
  }

  predicate PairIsClean(links: Pairs, left: seq<Link>, right: seq<Link>, i: nat)
    requires i < |links| && |links| <= |left| && (links[i].Some? ==> links[i].value < |right|)
  {
    links[i].Some? ==> Compared(left[i].caps, right[links[i].value].caps).IsClean()
  }

  lemma CleanFrontAndLast(links: Pairs, left: seq<Link>, right: seq<Link>)
    requires links != [] && InRange(links, left, right)
    ensures AllClean(links, left, right)
            <==> AllClean(links[..|links| - 1], left, right) && PairIsClean(links, left, right, |links| - 1)
  {
    var n := |links| - 1;
    forall i | 0 <= i < n
      ensures PairIsClean(links, left, right, i) == PairIsClean(links[..n], left, right, i)
    {
    }
  }

  lemma {:induction false} SharedAreClean(links: Pairs, left: seq<Link>, right: seq<Link>)
    requires InRange(links, left, right)
    ensures var shared := Shared(links, left, right);
            !SomeReal(shared) && !SomeInformational(shared) <==> AllClean(links, left, right)
  {
    if links != [] {
      var n := |links| - 1;
      SharedAreClean(links[..n], left, right);
      CleanFrontAndLast(links, left, right);
      if links[n].Some? {
        CleanOneMore(Shared(links[..n], left, right),
                     SharedLink(n, links[n].value, Compared(left[n].caps, right[links[n].value].caps)));
      } else {
        assert Shared(links, left, right) == Shared(links[..n], left, right);
      }
    }
  }

  lemma CleanOneMore(shared: seq<SharedLink>, last: SharedLink)
    ensures SomeReal(shared + [last]) <==> SomeReal(shared) || last.caps.IsReal()
    ensures SomeInformational(shared + [last]) <==> SomeInformational(shared) || last.caps.IsInformational()
  {
    var more := shared + [last];
    if SomeReal(shared) {
      var i :| 0 <= i < |shared| && shared[i].caps.IsReal();
      assert more[i].caps.IsReal();
    }
    if SomeInformational(shared) {
      var i :| 0 <= i < |shared| && shared[i].caps.IsInformational();
      assert more[i].caps.IsInformational();
    }
    assert more[|shared|] == last;
  }

  /** The pipelines match exactly when every element and every link of both is paired, and all caps compare clean. */
  lemma MatchMeans(naming: Naming, left: PipelineGraph, right: PipelineGraph, d: PipelineDiff)
    requires IsDiff(naming, left, right, d)
    ensures var pairs := ElementPairs(naming, left, right);
            var links := LinkPairs(pairs, left.links, right.links);
            d.verdict == Match <==>
            IsTotal(pairs, |right.elements|) && IsTotal(links, |right.links|) && AllClean(links, left.links, right.links)
  {
    var pairs := ElementPairs(naming, left, right);
    var links := LinkPairs(pairs, left.links, right.links);
    NoneLeftOver(pairs);
    NoneRightOver(pairs, |right.elements|);
    NoneLeftOver(links);
    NoneRightOver(links, |right.links|);
    SharedAreClean(links, left.links, right.links);
  }

  predicate HasField(caps: Option<Caps>, field: string) {
    caps.Some? && field in caps.value.fields
  }

  /** What is reported of a field of two links. */
  predicate FieldSays(left: Option<Caps>, right: Option<Caps>, diff: CapsDiff, field: string) {
    && (field in diff.onlyLeft <==> HasField(left, field) && !HasField(right, field))
    && (field in diff.onlyRight <==> HasField(right, field) && !HasField(left, field))
    && (field in diff.conflicts <==>
          HasField(left, field) && HasField(right, field) && left.value.fields[field] != right.value.fields[field])
    && (field in diff.conflicts ==> diff.conflicts[field] == (left.value.fields[field], right.value.fields[field]))
    && (field in diff.onlyLeft ==> diff.onlyLeft[field] == left.value.fields[field])
    && (field in diff.onlyRight ==> diff.onlyRight[field] == right.value.fields[field])
  }

  lemma ComparedSays(left: Option<Caps>, right: Option<Caps>, field: string)
    ensures FieldSays(left, right, Compared(left, right), field)
    ensures Compared(left, right).mediaTypeDiffers
            <==> left.Some? && right.Some? && left.value.mediaType != right.value.mediaType
  {
  }

  /** A shared link is one of each side, between paired elements, and tells of every field which side has it and where
      the values differ. */
  lemma {:induction false} SharedLinkSays(naming: Naming, left: PipelineGraph, right: PipelineGraph, d: PipelineDiff,
                                          k: nat, field: string)
    requires IsDiff(naming, left, right, d) && k < |d.links|
    ensures var s := d.links[k];
            && s.left < |left.links| && s.right < |right.links|
            && LinksFit(ElementPairs(naming, left, right), left.links[s.left], right.links[s.right])
            && FieldSays(left.links[s.left].caps, right.links[s.right].caps, s.caps, field)
            && s.caps == Compared(left.links[s.left].caps, right.links[s.right].caps)
  {
    var pairs := ElementPairs(naming, left, right);
    var links := LinkPairs(pairs, left.links, right.links);
    LinkPairsFit(pairs, left.links, right.links);
    SharedIsPair(links, left.links, right.links, k);
    ComparedSays(left.links[d.links[k].left].caps, right.links[d.links[k].right].caps, field);
  }

  lemma {:induction false} SharedIsPair(links: Pairs, left: seq<Link>, right: seq<Link>, k: nat)
    requires InRange(links, left, right) && k < |Shared(links, left, right)|
    ensures var s := Shared(links, left, right)[k];
            && s.left < |links| && links[s.left] == Some(s.right) && s.right < |right|
            && s.caps == Compared(left[s.left].caps, right[s.right].caps)
  {
    var n := |links| - 1;
    var front := Shared(links[..n], left, right);
    if k < |front| {
      SharedIsPair(links[..n], left, right, k);
      assert Shared(links, left, right)[k] == front[k];
    }
  }

  /** Both links have caps, of different types or with different values of some field. */
  ghost predicate CapsConflict(left: Option<Caps>, right: Option<Caps>) {
    && left.Some? && right.Some?
    && (left.value.mediaType != right.value.mediaType || exists field :: InConflict(left.value, right.value, field))
  }

  ghost predicate SomeConflict(links: Pairs, left: seq<Link>, right: seq<Link>)
    requires InRange(links, left, right)
  {
    exists i :: 0 <= i < |links| && links[i].Some? && CapsConflict(left[i].caps, right[links[i].value].caps)
  }

  lemma {:induction false} SharedAreReal(links: Pairs, left: seq<Link>, right: seq<Link>)
    requires InRange(links, left, right)
    ensures SomeReal(Shared(links, left, right)) <==> SomeConflict(links, left, right)
  {
    if links != [] {
      var n := |links| - 1;
      SharedAreReal(links[..n], left, right);
      ConflictOneMore(links, left, right);
      if links[n].Some? {
        var j := links[n].value;
        RealMeans(left[n].caps, right[j].caps);
        CleanOneMore(Shared(links[..n], left, right), SharedLink(n, j, Compared(left[n].caps, right[j].caps)));
      } else {
        assert Shared(links, left, right) == Shared(links[..n], left, right);
      }
    }
  }

  lemma ConflictOneMore(links: Pairs, left: seq<Link>, right: seq<Link>)
    requires links != [] && InRange(links, left, right)
    ensures var n := |links| - 1;
            SomeConflict(links, left, right)
            <==> SomeConflict(links[..n], left, right)
                 || (links[n].Some? && CapsConflict(left[n].caps, right[links[n].value].caps))
  {
    var front := links[..|links| - 1];
    if SomeConflict(front, left, right) {
      var i :| 0 <= i < |front| && front[i].Some? && CapsConflict(left[i].caps, right[front[i].value].caps);
      assert links[i] == front[i];
    }
  }

  /** The pipelines differ exactly when some pair of links has caps that conflict. */
  lemma DiffersMeans(naming: Naming, left: PipelineGraph, right: PipelineGraph, d: PipelineDiff)
    requires IsDiff(naming, left, right, d)
    ensures d.verdict == Differs
            <==> SomeConflict(LinkPairs(ElementPairs(naming, left, right), left.links, right.links), left.links, right.links)
  {
    SharedAreReal(LinkPairs(ElementPairs(naming, left, right), left.links, right.links), left.links, right.links);
  }

  /** If they match, the pairs are a renaming of one pipeline into the other: to each link the one between the elements
      its ends are paired with, with caps that do not conflict. */
  lemma MatchRenames(naming: Naming, left: PipelineGraph, right: PipelineGraph, d: PipelineDiff, i: nat)
    requires IsDiff(naming, left, right, d) && d.verdict == Match && i < |left.links|
    ensures var pairs := ElementPairs(naming, left, right);
            var links := LinkPairs(pairs, left.links, right.links);
            && OneToOne(pairs) && OneToOne(links)
            && links[i].Some? && links[i].value < |right.links|
            && LinksFit(pairs, left.links[i], right.links[links[i].value])
            && PairIsClean(links, left.links, right.links, i)
  {
    var pairs := ElementPairs(naming, left, right);
    MatchMeans(naming, left, right, d);
    GreedyMeans(ElementFit(naming, left.elements, right.elements), |right.elements|, pairs);
    LinkPairsFit(pairs, left.links, right.links);
  }

  lemma LinkPairsFit(pairs: Pairs, left: seq<Link>, right: seq<Link>)
    ensures var links := LinkPairs(pairs, left, right);
            && OneToOne(links)
            && forall i :: 0 <= i < |left| && links[i].Some? ==>
                 links[i].value < |right| && LinksFit(pairs, left[i], right[links[i].value])
  {
    GreedyMeans(LinkFit(pairs, left, right), |right|, LinkPairs(pairs, left, right));
  }

  // ----- a pipeline against itself -----

  ghost predicate IsIdentity(pairs: Pairs) {
    forall i :: 0 <= i < |pairs| ==> pairs[i] == Some(i)
  }

  lemma IdentityIsTotal(pairs: Pairs)
    requires IsIdentity(pairs)
    ensures IsTotal(pairs, |pairs|)
  {
    forall j: nat | j < |pairs|
      ensures Taken(pairs, j)
    {
      assert pairs[j] == Some(j);
    }
  }

  /** A pipeline matches itself, each element and each link paired with itself, whatever names match one another and
      however many links join two elements. */
  lemma SelfMatches(naming: Naming, graph: PipelineGraph, d: PipelineDiff)
    requires graph.WellFormed() && (forall name :: naming(name, name)) && IsDiff(naming, graph, graph, d)
    ensures d.verdict == Match
    ensures IsIdentity(ElementPairs(naming, graph, graph))
    ensures IsIdentity(LinkPairs(ElementPairs(naming, graph, graph), graph.links, graph.links))
  {
    var pairs := ElementPairs(naming, graph, graph);
    ElementsPairWithThemselves(naming, graph);
    IdentityIsTotal(pairs);
    LinksPairWithThemselves(pairs, graph);
    IdentityIsTotal(LinkPairs(pairs, graph.links, graph.links));
    MatchMeans(naming, graph, graph, d);
  }

  lemma ElementsPairWithThemselves(naming: Naming, graph: PipelineGraph)
    requires forall name :: naming(name, name)
    ensures IsIdentity(ElementPairs(naming, graph, graph))
  {
    var fits := ElementFit(naming, graph.elements, graph.elements);
    forall i: nat | i < |graph.elements|
      ensures fits(i, i)
    {
      assert naming(graph.elements[i].name, graph.elements[i].name);
    }
    SelfIsIdentity(fits, |graph.elements|, |graph.elements|);
  }

  lemma LinksPairWithThemselves(pairs: Pairs, graph: PipelineGraph)
    requires graph.WellFormed() && |pairs| == |graph.elements| && IsIdentity(pairs)
    ensures var links := LinkPairs(pairs, graph.links, graph.links);
            && IsIdentity(links) && InRange(links, graph.links, graph.links)
            && AllClean(links, graph.links, graph.links)
  {
    var links := LinkPairs(pairs, graph.links, graph.links);
    SelfIsIdentity(LinkFit(pairs, graph.links, graph.links), |graph.links|, |graph.links|);
    forall i | 0 <= i < |links|
      ensures PairIsClean(links, graph.links, graph.links, i)
    {
      CleanMeans(graph.links[i].caps, graph.links[i].caps);
    }
  }

  lemma SelfMatchesByName(synonyms: ElementNames.Synonyms, graph: PipelineGraph, d: PipelineDiff)
    requires graph.WellFormed() && IsDiff(Names(synonyms), graph, graph, d)
    ensures d.verdict == Match
  {
    forall name
      ensures Names(synonyms)(name, name)
    {
      ElementNames.SameElementIsSymmetric(synonyms, name, name);
    }
    SelfMatches(Names(synonyms), graph, d);
  }
}
