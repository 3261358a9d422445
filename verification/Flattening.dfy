/** Flattening a dump of nested bins into leaf elements and their links, crates/calliope-adapter-gst/src/dot.rs. */
module Flattening {
  import opened Prelude
  import opened PipelineGraphs

  datatype Cluster = Cluster(prefix: string, name: string, isBin: bool)

  datatype PadLink = PadLink(from: string, to: string, caps: Option<Caps>)

  // ----- which element owns a pad -----

  predicate Owns(c: Cluster, pad: string) {
    c.prefix <= pad && "_node_" <= pad[|c.prefix|..]
  }

  /** The owner among the first n clusters: the longest prefix, the last of a tie. */
  function Owner(clusters: seq<Cluster>, pad: string, n: nat): (o: Option<nat>)
    requires n <= |clusters|
    ensures o.Some? ==> o.value < n && Owns(clusters[o.value], pad)
  {
    if n == 0 then None
    else
      var before := Owner(clusters, pad, n - 1);
      if Owns(clusters[n - 1], pad)
         && (before.None? || |clusters[n - 1].prefix| >= |clusters[before.value].prefix|) then Some(n - 1)
      else before
  }

  /** The longest prefix wins, and of several as long the last one. */
  lemma {:induction false} OwnerHasLongestPrefix(clusters: seq<Cluster>, pad: string, n: nat, i: nat)
    requires i < n <= |clusters| && Owns(clusters[i], pad)
    ensures Owner(clusters, pad, n).Some?
    ensures |clusters[i].prefix| <= |clusters[Owner(clusters, pad, n).value].prefix|
    ensures i > Owner(clusters, pad, n).value ==>
              |clusters[i].prefix| < |clusters[Owner(clusters, pad, n).value].prefix|
  {
    if i < n - 1 {
      OwnerHasLongestPrefix(clusters, pad, n - 1, i);
    }
  }

  /** The leaf element that owns a pad, none for a pad of a bin. */
  type Leaves = string -> Option<nat>

  function LeafOwner(clusters: seq<Cluster>): Leaves {
    (pad: string) =>
      var o := Owner(clusters, pad, |clusters|);
      if o.Some? && !clusters[o.value].isBin then o else None
  }

  // ----- walks -----

  /** Walking links from `start` to `end`, leaving only pads no leaf owns. */
  predicate IsWalk(leaf: Leaves, links: seq<PadLink>, start: string, path: seq<nat>, end: string)
    decreases |path|
  {
    if path == [] then start == end
    else
      && path[0] < |links|
      && links[path[0]].from == start
      && leaf(start).None?
      && IsWalk(leaf, links, links[path[0]].to, path[1..], end)
  }

  /** The first caps on the way. */
  function CapsAlong(links: seq<PadLink>, caps: Option<Caps>, path: seq<nat>): Option<Caps>
    decreases |path|
  {
    if caps.Some? || path == [] || path[0] >= |links| then caps
    else CapsAlong(links, links[path[0]].caps, path[1..])
  }

  /** The caps of the first link on a path that has any, none if no link has. */
  ghost predicate IsFirstCaps(links: seq<PadLink>, path: seq<nat>, caps: Option<Caps>)
    requires forall k :: 0 <= k < |path| ==> path[k] < |links|
  {
    match caps
    case None => forall k :: 0 <= k < |path| ==> links[path[k]].caps == None
    case Some(_) =>
      exists k :: 0 <= k < |path| && links[path[k]].caps == caps
                  && forall j :: 0 <= j < k ==> links[path[j]].caps == None
  }

  /** What a path carries from its first link on is the first caps of all its links. */
  lemma {:induction false} CarriesFirstCaps(links: seq<PadLink>, first: nat, path: seq<nat>)
    requires first < |links| && forall k :: 0 <= k < |path| ==> path[k] < |links|
    ensures IsFirstCaps(links, [first] + path, CapsAlong(links, links[first].caps, path))
    decreases |path|
  {
    var whole := [first] + path;
    if links[first].caps.Some? || path == [] {
      assert whole[0] == first;
    } else {
      CarriesFirstCaps(links, path[0], path[1..]);
      assert whole[1..] == path == [path[0]] + path[1..];
      FirstCapsLater(links, whole, CapsAlong(links, links[first].caps, path));
    }
  }

  lemma FirstCapsLater(links: seq<PadLink>, path: seq<nat>, caps: Option<Caps>)
    requires forall k :: 0 <= k < |path| ==> path[k] < |links|
    requires path != [] && links[path[0]].caps == None && IsFirstCaps(links, path[1..], caps)
    ensures IsFirstCaps(links, path, caps)
  {
    var later := path[1..];
    forall k | 0 < k < |path|
      ensures path[k] == later[k - 1]
    {
    }
    if caps.Some? {
      var k :|
        0 <= k < |later| && links[later[k]].caps == caps && forall j :: 0 <= j < k ==> links[later[j]].caps == None;
      assert links[path[k + 1]].caps == caps;
    }
  }

  ghost predicate Reaches(leaf: Leaves, links: seq<PadLink>, start: string, caps: Option<Caps>, to: nat,
                          carried: Option<Caps>) {
    exists path, end ::
      IsWalk(leaf, links, start, path, end) && leaf(end) == Some(to) && carried == CapsAlong(links, caps, path)
  }

  function Pads(links: seq<PadLink>): (pads: set<string>)
    ensures forall i :: 0 <= i < |links| ==> links[i].from in pads && links[i].to in pads
  {
    (set i | 0 <= i < |links| :: links[i].from) + (set i | 0 <= i < |links| :: links[i].to)
  }

  /** The links out of a pad, in dump order. */
  function Out(links: seq<PadLink>, pad: string): (r: seq<PadLink>)
    ensures forall e :: e in r <==> e in links && e.from == pad
  {
    if links == [] then []
    else Out(links[..|links| - 1], pad) + if links[|links| - 1].from == pad then [links[|links| - 1]] else []
  }

  /** Every link out of a seen pad that no leaf owns, other than the `open` ones, leads to a seen pad. */
  ghost predicate Closed(leaf: Leaves, links: seq<PadLink>, seen: set<string>, open: set<string>) {
    forall i :: 0 <= i < |links| && links[i].from in seen && links[i].from !in open && leaf(links[i].from).None?
                ==> links[i].to in seen
  }

  /** Each leaf whose pad is newly seen is listed. */
  ghost predicate Listed(leaf: Leaves, before: set<string>, seen: set<string>, out: seq<(nat, Option<Caps>)>) {
    forall p :: p in seen - before && leaf(p).Some? ==> exists k :: 0 <= k < |out| && out[k].0 == leaf(p).value
  }

  ghost predicate Sound(leaf: Leaves, links: seq<PadLink>, start: string, caps: Option<Caps>,
                        out: seq<(nat, Option<Caps>)>) {
    forall k :: 0 <= k < |out| ==> Reaches(leaf, links, start, caps, out[k].0, out[k].1)
  }

  lemma StepsOn(leaf: Leaves, links: seq<PadLink>, pad: string, caps: Option<Caps>, i: nat,
                out: seq<(nat, Option<Caps>)>)
    requires i < |links| && links[i].from == pad && leaf(pad).None?
    requires Sound(leaf, links, links[i].to, if caps.Some? then caps else links[i].caps, out)
    ensures Sound(leaf, links, pad, caps, out)
  {
    forall k | 0 <= k < |out|
      ensures Reaches(leaf, links, pad, caps, out[k].0, out[k].1)
    {
      var next := if caps.Some? then caps else links[i].caps;
      var path, end :| IsWalk(leaf, links, links[i].to, path, end) && leaf(end) == Some(out[k].0)
                       && out[k].1 == CapsAlong(links, next, path);
      var longer := [i] + path;
      assert longer[1..] == path;
      assert IsWalk(leaf, links, pad, longer, end);
      if caps.Some? {
        assert CapsAlong(links, caps, longer) == caps == CapsAlong(links, next, path);
      }
    }
  }

  /** Follows `pad` until every path reaches a pad a leaf owns. Pads already in `seen` are not followed again, so the
      walk ends on cyclic graphs too. The pads in `open` are being followed by the callers. */
  method WalkToLeafPads(leaf: Leaves, links: seq<PadLink>, adjacency: map<string, seq<PadLink>>, pad: string,
                        caps: Option<Caps>, seen: set<string>, ghost open: set<string>)
    returns (nowSeen: set<string>, out: seq<(nat, Option<Caps>)>)
    requires IsAdjacency(links, adjacency)
    requires pad in Pads(links) && seen <= Pads(links) && Closed(leaf, links, seen, open)
    ensures seen + {pad} <= nowSeen <= Pads(links) && Closed(leaf, links, nowSeen, open)
    ensures Listed(leaf, seen, nowSeen, out)
    ensures Sound(leaf, links, pad, caps, out)
    decreases Pads(links) - seen
  {
    nowSeen, out := seen, [];
    if pad in seen {
      return;
    }
    nowSeen := seen + {pad};
    if leaf(pad).Some? {
      out := [(leaf(pad).value, caps)];
      LeafIsReached(leaf, links, pad, caps, seen);
      return;
    }
    var edges := if pad in adjacency then adjacency[pad] else [];
    assert edges == Out(links, pad) by { assert Edges(adjacency, pad) == Out(links, pad); }
    for j := 0 to |edges|
      invariant seen + {pad} <= nowSeen <= Pads(links) && Closed(leaf, links, nowSeen, open + {pad})
      invariant AllSeen(edges[..j], nowSeen)
      invariant Listed(leaf, seen, nowSeen, out)
      invariant Sound(leaf, links, pad, caps, out)
    {
      ghost var i := IndexOfOut(links, pad, j);
      var further, reached := WalkToLeafPads(leaf, links, adjacency, edges[j].to,
                                             if caps.Some? then caps else edges[j].caps, nowSeen, open + {pad});
      StepsOn(leaf, links, pad, caps, i, reached);
      ListedMore(leaf, seen, nowSeen, further, out, reached);
      OneMoreSeen(edges, j, nowSeen, further);
      nowSeen, out := further, out + reached;
    }
    assert edges[..|edges|] == edges;
    AllOutSeen(leaf, links, pad, edges, nowSeen, open);
  }

  ghost predicate AllSeen(edges: seq<PadLink>, seen: set<string>) {
    forall k :: 0 <= k < |edges| ==> edges[k].to in seen
  }

  lemma OneMoreSeen(edges: seq<PadLink>, j: nat, seen: set<string>, further: set<string>)
    requires j < |edges| && AllSeen(edges[..j], seen) && seen <= further && edges[j].to in further
    ensures AllSeen(edges[..j + 1], further)
  {
    forall k | 0 <= k < j
      ensures edges[k].to in further
    {
      assert edges[..j][k].to in seen;
    }
  }

  function Edges(adjacency: map<string, seq<PadLink>>, pad: string): seq<PadLink> {
    if pad in adjacency then adjacency[pad] else []
  }

  ghost predicate IsAdjacency(links: seq<PadLink>, adjacency: map<string, seq<PadLink>>) {
    forall p :: Edges(adjacency, p) == Out(links, p)
  }

  lemma IndexOfOut(links: seq<PadLink>, pad: string, j: nat) returns (i: nat)
    requires j < |Out(links, pad)|
    ensures i < |links| && links[i] == Out(links, pad)[j] && links[i].from == pad
  {
    assert Out(links, pad)[j] in links;
    i :| 0 <= i < |links| && links[i] == Out(links, pad)[j];
  }

  lemma LeafIsReached(leaf: Leaves, links: seq<PadLink>, pad: string, caps: Option<Caps>, seen: set<string>)
    requires leaf(pad).Some?
    ensures Sound(leaf, links, pad, caps, [(leaf(pad).value, caps)])
    ensures Listed(leaf, seen, seen + {pad}, [(leaf(pad).value, caps)])
  {
    var out := [(leaf(pad).value, caps)];
    assert IsWalk(leaf, links, pad, [], pad) && CapsAlong(links, caps, []) == caps;
    forall p | p in (seen + {pad}) - seen && leaf(p).Some?
      ensures exists k :: 0 <= k < |out| && out[k].0 == leaf(p).value
    {
      assert out[0].0 == leaf(p).value;
    }
  }

  lemma ListedMore(leaf: Leaves, before: set<string>, middle: set<string>, after: set<string>,
                   first: seq<(nat, Option<Caps>)>, second: seq<(nat, Option<Caps>)>)
    requires Listed(leaf, before, middle, first) && Listed(leaf, middle, after, second)
    ensures Listed(leaf, before, after, first + second)
  {
    var all := first + second;
    forall p | p in after - before && leaf(p).Some?
      ensures exists k :: 0 <= k < |all| && all[k].0 == leaf(p).value
    {
      if p in middle {
        var k :| 0 <= k < |first| && first[k].0 == leaf(p).value;
        assert all[k].0 == leaf(p).value;
      } else {
        var k :| 0 <= k < |second| && second[k].0 == leaf(p).value;
        assert all[|first| + k].0 == leaf(p).value;
      }
    }
  }

  lemma {:induction false} AllOutSeen(leaf: Leaves, links: seq<PadLink>, pad: string, edges: seq<PadLink>,
                                      seen: set<string>, open: set<string>)
    requires edges == Out(links, pad) && AllSeen(edges, seen)
    requires Closed(leaf, links, seen, open + {pad})
    ensures Closed(leaf, links, seen, open)
  {
    forall i | 0 <= i < |links| && links[i].from in seen && links[i].from !in open && leaf(links[i].from).None?
      ensures links[i].to in seen
    {
      if links[i].from == pad {
        assert links[i] in edges;
        var k :| 0 <= k < |edges| && edges[k] == links[i];
      }
    }
  }

  /** A closed set holds the end of every walk from within it. */
  lemma {:induction false} WalksStayInside(leaf: Leaves, links: seq<PadLink>, start: string, path: seq<nat>,
                                           end: string, seen: set<string>)
    requires Closed(leaf, links, seen, {}) && start in seen && IsWalk(leaf, links, start, path, end)
    ensures end in seen
    decreases |path|
  {
    if path != [] {
      WalksStayInside(leaf, links, links[path[0]].to, path[1..], end, seen);
    }
  }

  // ----- the graph -----

  /** How many of the first i clusters are leaves: the node of a leaf cluster. */
  function NodeOf(clusters: seq<Cluster>, i: nat): (n: nat)
    requires i <= |clusters|
    ensures n <= i
  {
    if i == 0 then 0 else NodeOf(clusters, i - 1) + if clusters[i - 1].isBin then 0 else 1
  }

  lemma {:induction false} NodesAreDistinct(clusters: seq<Cluster>, i: nat, j: nat)
    requires i < j <= |clusters| && !clusters[i].isBin
    ensures NodeOf(clusters, i) < NodeOf(clusters, j)
  {
    if i < j - 1 {
      NodesAreDistinct(clusters, i, j - 1);
    }
  }

  /** A pad of leaf A is linked, through pads no leaf owns, to a pad of leaf B. */
  ghost predicate Connected(leaf: Leaves, links: seq<PadLink>, a: nat, b: nat, carried: Option<Caps>) {
    exists i :: 0 <= i < |links| && leaf(links[i].from) == Some(a)
                && Reaches(leaf, links, links[i].to, links[i].caps, b, carried)
  }

  method BuildAdjacency(links: seq<PadLink>) returns (adjacency: map<string, seq<PadLink>>)
    ensures IsAdjacency(links, adjacency)
  {
    adjacency := map[];
    for i := 0 to |links|
      invariant IsAdjacency(links[..i], adjacency)
    {
      assert links[..i + 1][..i] == links[..i];
      var pad := links[i].from;
      ghost var before := adjacency;
      adjacency := adjacency[pad := Edges(adjacency, pad) + [links[i]]];
      forall p
        ensures Edges(adjacency, p) == Out(links[..i + 1], p)
      {
        assert Edges(before, p) == Out(links[..i], p);
      }
    }
    assert links[..|links|] == links;
  }

  /** The leaf elements among the first n clusters, in dump order. */
  function LeafElements(clusters: seq<Cluster>, n: nat): (elements: seq<Element>)
    requires n <= |clusters|
    ensures |elements| == NodeOf(clusters, n)
  {
    if n == 0 then []
    else LeafElements(clusters, n - 1) + if clusters[n - 1].isBin then [] else [Element(clusters[n - 1].name)]
  }

  lemma {:induction false} LeafAtItsNode(clusters: seq<Cluster>, n: nat, i: nat)
    requires i < n <= |clusters| && !clusters[i].isBin
    ensures NodeOf(clusters, i) < |LeafElements(clusters, n)|
    ensures LeafElements(clusters, n)[NodeOf(clusters, i)] == Element(clusters[i].name)
  {
    if i < n - 1 {
      LeafAtItsNode(clusters, n - 1, i);
    }
  }

  /** The emitted links in terms of leaf clusters. */
  datatype LeafLink = LeafLink(src: nat, dst: nat, caps: Option<Caps>)

  ghost predicate OnceEach(links: seq<LeafLink>) {
    forall j, k :: 0 <= j < k < |links| ==> links[j].src != links[k].src || links[j].dst != links[k].dst
  }

  ghost predicate Has(links: seq<LeafLink>, src: nat, dst: nat) {
    exists k :: 0 <= k < |links| && links[k].src == src && links[k].dst == dst
  }

  /** The first n pad links give these leaf links: each is a connection with caps found on the way, and no connection
      is missing. */
  ghost predicate Flattened(leaf: Leaves, links: seq<PadLink>, n: nat, flat: seq<LeafLink>)
    requires n <= |links|
  {
    && OnceEach(flat)
    && (forall k :: 0 <= k < |flat| ==> Connected(leaf, links, flat[k].src, flat[k].dst, flat[k].caps))
    && (forall i, dst: nat, caps ::
          (0 <= i < n && leaf(links[i].from).Some? && Reaches(leaf, links, links[i].to, links[i].caps, dst, caps))
          ==> Has(flat, leaf(links[i].from).value, dst))
  }

  ghost predicate IsReached(src: nat, reached: seq<(nat, Option<Caps>)>, link: LeafLink) {
    exists r :: 0 <= r < |reached| && link == LeafLink(src, reached[r].0, reached[r].1)
  }

  /** Adds the reached leaves that are not linked yet. */
  method AddReached(src: nat, reached: seq<(nat, Option<Caps>)>, flat: seq<LeafLink>) returns (more: seq<LeafLink>)
    requires OnceEach(flat)
    ensures OnceEach(more) && flat <= more
    ensures forall k :: |flat| <= k < |more| ==> IsReached(src, reached, more[k])
    ensures forall r :: 0 <= r < |reached| ==> Has(more, src, reached[r].0)
  {
    more := flat;
    for r := 0 to |reached|
      invariant OnceEach(more) && flat <= more
      invariant forall k :: |flat| <= k < |more| ==> IsReached(src, reached, more[k])
      invariant forall q :: 0 <= q < r ==> Has(more, src, reached[q].0)
    {
      var (dst, caps) := reached[r];
      ghost var before := more;
      if !exists k :: 0 <= k < |more| && more[k].src == src && more[k].dst == dst {
        more := more + [LeafLink(src, dst, caps)];
        assert more[|before|].dst == dst;
      }
      HasStays(before, more);
    }
  }

  lemma HasStays(before: seq<LeafLink>, after: seq<LeafLink>)
    requires before <= after
    ensures forall src, dst :: Has(before, src, dst) ==> Has(after, src, dst)
  {
    forall src, dst | Has(before, src, dst)
      ensures Has(after, src, dst)
    {
      var k :| 0 <= k < |before| && before[k].src == src && before[k].dst == dst;
      assert after[k] == before[k];
    }
  }

  /** One pad link more: the walk from its far pad finds every leaf it is connected to. */
  lemma FlattenedMore(leaf: Leaves, links: seq<PadLink>, i: nat, seen: set<string>, reached: seq<(nat, Option<Caps>)>,
                      flat: seq<LeafLink>, more: seq<LeafLink>)
    requires i < |links| && leaf(links[i].from).Some? && Flattened(leaf, links, i, flat)
    requires links[i].to in seen && Closed(leaf, links, seen, {}) && Listed(leaf, {}, seen, reached)
    requires Sound(leaf, links, links[i].to, links[i].caps, reached)
    requires OnceEach(more) && flat <= more
    requires var src := leaf(links[i].from).value;
             && (forall k :: |flat| <= k < |more| ==> IsReached(src, reached, more[k]))
             && (forall r :: 0 <= r < |reached| ==> Has(more, src, reached[r].0))
    ensures Flattened(leaf, links, i + 1, more)
  {
    var src := leaf(links[i].from).value;
    forall k | 0 <= k < |more|
      ensures Connected(leaf, links, more[k].src, more[k].dst, more[k].caps)
    {
      if k < |flat| {
        assert more[k] == flat[k];
      } else {
        assert IsReached(src, reached, more[k]);
        var r :| 0 <= r < |reached| && more[k] == LeafLink(src, reached[r].0, reached[r].1);
        assert Reaches(leaf, links, links[i].to, links[i].caps, reached[r].0, reached[r].1);
      }
    }
    HasStays(flat, more);
    forall dst: nat, caps | Reaches(leaf, links, links[i].to, links[i].caps, dst, caps)
      ensures Has(more, src, dst)
    {
      var path, end :| IsWalk(leaf, links, links[i].to, path, end) && leaf(end) == Some(dst)
                       && caps == CapsAlong(links, links[i].caps, path);
      WalksStayInside(leaf, links, links[i].to, path, end, seen);
      assert end in seen - {};
      var r :| 0 <= r < |reached| && reached[r].0 == leaf(end).value;
      assert Has(more, src, reached[r].0);
    }
  }

  /** The graph's links are the flattened ones, leaf clusters turned into nodes. */
  ghost predicate AsNodes(clusters: seq<Cluster>, flat: seq<LeafLink>, links: seq<Link>) {
    && |links| == |flat|
    && forall k :: 0 <= k < |flat| ==>
         && flat[k].src < |clusters| && flat[k].dst < |clusters|
         && !clusters[flat[k].src].isBin && !clusters[flat[k].dst].isBin
         && links[k] == Link(NodeOf(clusters, flat[k].src), NodeOf(clusters, flat[k].dst), flat[k].caps)
  }

  ghost predicate IsGraphOf(graph: PipelineGraph, clusters: seq<Cluster>, padLinks: seq<PadLink>) {
    && graph.elements == LeafElements(clusters, |clusters|)
    && exists flat: seq<LeafLink> ::
         Flattened(LeafOwner(clusters), padLinks, |padLinks|, flat) && AsNodes(clusters, flat, graph.links)
  }

  /** The graph of a dump: leaf elements in order, and one link for each connected pair of leaves. */
  method ParseDot(clusters: seq<Cluster>, padLinks: seq<PadLink>) returns (graph: Option<PipelineGraph>)
    ensures graph.None? <==> clusters == []
    ensures graph.Some? ==> IsGraphOf(graph.value, clusters, padLinks)
  {
    if clusters == [] {
      return None;
    }
    var leaf := LeafOwner(clusters);
    var nodeOfCluster, elements := NodesAndElements(clusters);
    var adjacency := BuildAdjacency(padLinks);
    var leafLinks: seq<LeafLink> := [];
    for i := 0 to |padLinks|
      invariant Flattened(leaf, padLinks, i, leafLinks)
    {
      var src := leaf(padLinks[i].from);
      if src.Some? {
        var seen, reached := WalkToLeafPads(leaf, padLinks, adjacency, padLinks[i].to, padLinks[i].caps, {}, {});
        var more := AddReached(src.value, reached, leafLinks);
        FlattenedMore(leaf, padLinks, i, seen, reached, leafLinks, more);
        leafLinks := more;
      }
    }
    EndsAreLeaves(clusters, padLinks, leafLinks);
    var links := seq(|leafLinks|, k
      requires 0 <= k < |leafLinks| && leafLinks[k].src in nodeOfCluster && leafLinks[k].dst in nodeOfCluster =>
      Link(nodeOfCluster[leafLinks[k].src], nodeOfCluster[leafLinks[k].dst], leafLinks[k].caps));
    assert AsNodes(clusters, leafLinks, links);
    graph := Some(PipelineGraph(elements, links));
  }

  /** The nodes of the first n clusters: each leaf element has one, in dump order, and a bin has none. */
  ghost predicate AreNodes(clusters: seq<Cluster>, n: nat, nodeOfCluster: map<nat, nat>, elements: seq<Element>)
    requires n <= |clusters|
  {
    && elements == LeafElements(clusters, n)
    && (forall i: nat :: i in nodeOfCluster <==> i < n && !clusters[i].isBin)
    && (forall i: nat :: i in nodeOfCluster ==> nodeOfCluster[i] == NodeOf(clusters, i) < |elements|)
  }

  lemma {:induction false} LeavesAreCounted(clusters: seq<Cluster>, n: nat)
    requires n <= |clusters|
    ensures |LeafElements(clusters, n)| == NodeOf(clusters, n)
  {
    if n > 0 {
      LeavesAreCounted(clusters, n - 1);
    }
  }

  lemma {:induction false} NodesOneMore(clusters: seq<Cluster>, n: nat, nodeOfCluster: map<nat, nat>,
                                        elements: seq<Element>)
    requires n < |clusters| && AreNodes(clusters, n, nodeOfCluster, elements)
    ensures if clusters[n].isBin then AreNodes(clusters, n + 1, nodeOfCluster, elements)
            else AreNodes(clusters, n + 1, nodeOfCluster[n := |elements|], elements + [Element(clusters[n].name)])
  {
    LeavesAreCounted(clusters, n);
  }

  method NodesAndElements(clusters: seq<Cluster>) returns (nodeOfCluster: map<nat, nat>, elements: seq<Element>)
    ensures AreNodes(clusters, |clusters|, nodeOfCluster, elements)
  {
    nodeOfCluster, elements := map[], [];
    for i := 0 to |clusters|
      invariant AreNodes(clusters, i, nodeOfCluster, elements)
    {
      NodesOneMore(clusters, i, nodeOfCluster, elements);
      if !clusters[i].isBin {
        nodeOfCluster := nodeOfCluster[i := |elements|];
        elements := elements + [Element(clusters[i].name)];
      }
    }
  }

  lemma EndsAreLeaves(clusters: seq<Cluster>, links: seq<PadLink>, flat: seq<LeafLink>)
    requires forall k :: 0 <= k < |flat| ==> Connected(LeafOwner(clusters), links, flat[k].src, flat[k].dst, flat[k].caps)
    ensures forall k :: 0 <= k < |flat| ==>
              && flat[k].src < |clusters| && flat[k].dst < |clusters|
              && !clusters[flat[k].src].isBin && !clusters[flat[k].dst].isBin
  {
    var leaf := LeafOwner(clusters);
    forall k | 0 <= k < |flat|
      ensures flat[k].src < |clusters| && flat[k].dst < |clusters|
      ensures !clusters[flat[k].src].isBin && !clusters[flat[k].dst].isBin
    {
      var i :| 0 <= i < |links| && leaf(links[i].from) == Some(flat[k].src)
               && Reaches(leaf, links, links[i].to, links[i].caps, flat[k].dst, flat[k].caps);
      var path, end :| IsWalk(leaf, links, links[i].to, path, end) && leaf(end) == Some(flat[k].dst)
                       && flat[k].caps == CapsAlong(links, links[i].caps, path);
    }
  }

  ghost predicate Links(graph: PipelineGraph, from: nat, to: nat) {
    exists k :: 0 <= k < |graph.links| && graph.links[k].from == from && graph.links[k].to == to
  }

  lemma {:induction false} OneNodeEach(clusters: seq<Cluster>, i: nat, j: nat)
    requires i < |clusters| && j < |clusters| && !clusters[i].isBin && !clusters[j].isBin
    ensures NodeOf(clusters, i) == NodeOf(clusters, j) ==> i == j
    ensures NodeOf(clusters, i) < |LeafElements(clusters, |clusters|)|
  {
    LeafAtItsNode(clusters, |clusters|, i);
    if i < j {
      NodesAreDistinct(clusters, i, j);
    } else if j < i {
      NodesAreDistinct(clusters, j, i);
    }
  }

  /** A pad path leads from a pad of leaf A to a pad of leaf B through pads no leaf owns. */
  ghost predicate HasPath(leaf: Leaves, links: seq<PadLink>, a: nat, b: nat) {
    exists caps :: Connected(leaf, links, a, b, caps)
  }

  lemma FlatLinksArePaths(leaf: Leaves, links: seq<PadLink>, flat: seq<LeafLink>, a: nat, b: nat)
    requires Flattened(leaf, links, |links|, flat)
    ensures Has(flat, a, b) <==> HasPath(leaf, links, a, b)
  {
    if Has(flat, a, b) {
      var k :| 0 <= k < |flat| && flat[k].src == a && flat[k].dst == b;
      assert Connected(leaf, links, a, b, flat[k].caps);
    }
    if HasPath(leaf, links, a, b) {
      var caps :| Connected(leaf, links, a, b, caps);
      var i :| 0 <= i < |links| && leaf(links[i].from) == Some(a)
               && Reaches(leaf, links, links[i].to, links[i].caps, b, caps);
      assert Has(flat, leaf(links[i].from).value, b);
    }
  }

  lemma {:induction false} NodesAreLinkedAsLeaves(graph: PipelineGraph, clusters: seq<Cluster>, flat: seq<LeafLink>,
                                                  a: nat, b: nat)
    requires AsNodes(clusters, flat, graph.links)
    requires a < |clusters| && b < |clusters| && !clusters[a].isBin && !clusters[b].isBin
    ensures Links(graph, NodeOf(clusters, a), NodeOf(clusters, b)) <==> Has(flat, a, b)
  {
    if Links(graph, NodeOf(clusters, a), NodeOf(clusters, b)) {
      var k :| 0 <= k < |graph.links| && graph.links[k].from == NodeOf(clusters, a) && graph.links[k].to == NodeOf(clusters, b);
      OneNodeEach(clusters, flat[k].src, a);
      OneNodeEach(clusters, flat[k].dst, b);
    }
    if Has(flat, a, b) {
      var k :| 0 <= k < |flat| && flat[k].src == a && flat[k].dst == b;
      assert graph.links[k].from == NodeOf(clusters, a);
    }
  }

  /** Flattening is exact reachability: two leaves' nodes are linked if and only if a pad path joins the leaves. */
  lemma {:induction false} FlatteningIsReachability(graph: PipelineGraph, clusters: seq<Cluster>,
                                                    padLinks: seq<PadLink>, a: nat, b: nat)
    requires IsGraphOf(graph, clusters, padLinks)
    requires a < |clusters| && b < |clusters| && !clusters[a].isBin && !clusters[b].isBin
    ensures Links(graph, NodeOf(clusters, a), NodeOf(clusters, b)) <==> HasPath(LeafOwner(clusters), padLinks, a, b)
  {
    var leaf := LeafOwner(clusters);
    var flat: seq<LeafLink> :| Flattened(leaf, padLinks, |padLinks|, flat) && AsNodes(clusters, flat, graph.links);
    NodesAreLinkedAsLeaves(graph, clusters, flat, a, b);
    FlatLinksArePaths(leaf, padLinks, flat, a, b);
  }

  /** The link joins the nodes of two connected leaves and carries the first caps found on some path between them. */
  ghost predicate IsConnection(clusters: seq<Cluster>, padLinks: seq<PadLink>, link: Link) {
    exists a, b :: NodeIs(clusters, a, link.from) && NodeIs(clusters, b, link.to)
                   && Connected(LeafOwner(clusters), padLinks, a, b, link.caps)
  }

  predicate NodeIs(clusters: seq<Cluster>, a: nat, node: nat) {
    a < |clusters| && !clusters[a].isBin && NodeOf(clusters, a) == node
  }

  /** Every link is between nodes of the graph, no two links join the same nodes, and each is a connection. */
  lemma LinksAreOnceEach(graph: PipelineGraph, clusters: seq<Cluster>, padLinks: seq<PadLink>)
    requires IsGraphOf(graph, clusters, padLinks)
    ensures graph.WellFormed()
    ensures forall j, k :: 0 <= j < k < |graph.links| ==>
              graph.links[j].from != graph.links[k].from || graph.links[j].to != graph.links[k].to
    ensures forall k :: 0 <= k < |graph.links| ==> IsConnection(clusters, padLinks, graph.links[k])
  {
    var leaf := LeafOwner(clusters);
    var flat: seq<LeafLink> :| Flattened(leaf, padLinks, |padLinks|, flat) && AsNodes(clusters, flat, graph.links);
    forall k | 0 <= k < |graph.links|
      ensures graph.links[k].from < |graph.elements| && graph.links[k].to < |graph.elements|
      ensures IsConnection(clusters, padLinks, graph.links[k])
    {
      LeafAtItsNode(clusters, |clusters|, flat[k].src);
      LeafAtItsNode(clusters, |clusters|, flat[k].dst);
      assert NodeIs(clusters, flat[k].src, graph.links[k].from) && NodeIs(clusters, flat[k].dst, graph.links[k].to);
      assert Connected(leaf, padLinks, flat[k].src, flat[k].dst, flat[k].caps);
    }
    forall j, k | 0 <= j < k < |graph.links|
      ensures graph.links[j].from != graph.links[k].from || graph.links[j].to != graph.links[k].to
    {
      OneNodeEach(clusters, flat[j].src, flat[k].src);
      OneNodeEach(clusters, flat[j].dst, flat[k].dst);
    }
  }
}
