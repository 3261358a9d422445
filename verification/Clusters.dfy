/** The element clusters of a dump and which of them hold others, crates/calliope-adapter-gst/src/dot.rs. */
module Clusters {
  import opened Prelude
  import opened Flattening

  // ----- braces on a line -----

  /** Opening minus closing braces outside quoted strings. Inside one a backslash takes the next character along. */
  function Braces(line: string, quoted: bool): int {
    if line == "" then 0
    else
      var c, rest := line[0], line[1..];
      if c == '\\' && quoted then Braces(if rest == "" then "" else rest[1..], quoted)
      else if c == '"' then Braces(rest, !quoted)
      else if c == '{' && !quoted then Braces(rest, quoted) + 1
      else if c == '}' && !quoted then Braces(rest, quoted) - 1
      else Braces(rest, quoted)
  }

  method NetBraces(line: string) returns (depth: int)
    ensures depth == Braces(line, false)
  {
    depth := 0;
    var quoted, i := false, 0;
    while i < |line|
      invariant 0 <= i <= |line|
      invariant depth + Braces(line[i..], quoted) == Braces(line, false)
      decreases |line| - i
    {
      var c := line[i];
      assert line[i..][0] == c && line[i..][1..] == line[i + 1..];
      i := i + 1;
      if c == '\\' && quoted {
        if i < |line| {
          assert line[i..][1..] == line[i + 1..];
          i := i + 1;
        }
      } else if c == '"' {
        quoted := !quoted;
      } else if c == '{' && !quoted {
        depth := depth + 1;
      } else if c == '}' && !quoted {
        depth := depth - 1;
      }
    }
  }

  /** The inside of a quoted string as a dump writes it, its closing quote and the rest of the line. */
  function Inside(text: string, rest: string): string {
    if text == "" then ['"'] + rest
    else if text[0] == '"' || text[0] == '\\' then ['\\', text[0]] + Inside(text[1..], rest)
    else [text[0]] + Inside(text[1..], rest)
  }

  lemma {:induction false} InsideCountsNothing(text: string, rest: string)
    ensures Braces(Inside(text, rest), true) == Braces(rest, false)
  {
    if text == "" {
      assert (['"'] + rest)[1..] == rest;
    } else {
      InsideCountsNothing(text[1..], rest);
      if text[0] == '"' || text[0] == '\\' {
        PairCountsNothing(text[0], Inside(text[1..], rest));
      } else {
        CharCountsNothing(text[0], Inside(text[1..], rest));
      }
    }
  }

  lemma {:induction false} PairCountsNothing(c: char, rest: string)
    ensures Braces(['\\', c] + rest, true) == Braces(rest, true)
  {
    assert (['\\', c] + rest)[1..][1..] == rest;
  }

  lemma {:induction false} CharCountsNothing(c: char, rest: string)
    requires c != '"' && c != '\\'
    ensures Braces([c] + rest, true) == Braces(rest, true)
  {
    assert ([c] + rest)[1..] == rest;
  }

  /** A quoted string counts no braces, whatever is in it. */
  lemma {:induction false} QuotesCountNothing(text: string, rest: string)
    ensures Braces(['"'] + Inside(text, rest), false) == Braces(rest, false)
  {
    InsideCountsNothing(text, rest);
    assert (['"'] + Inside(text, rest))[1..] == Inside(text, rest);
  }

  /** Up to the first quote each opening brace counts one up and each closing one down. */
  lemma {:induction false} PlainCounts(plain: string, rest: string)
    requires '"' !in plain
    ensures Braces(plain + rest, false) == multiset(plain)['{'] as int - multiset(plain)['}'] as int + Braces(rest, false)
  {
    if plain == "" {
      assert plain + rest == rest;
    } else {
      PlainCounts(plain[1..], rest);
      assert plain == [plain[0]] + plain[1..];
      assert (plain + rest)[0] == plain[0] && (plain + rest)[1..] == plain[1..] + rest;
    }
  }

  /** So a line without quotes counts its opening braces less its closing ones. */
  lemma {:induction false} UnquotedCounts(line: string)
    requires '"' !in line
    ensures Braces(line, false) == multiset(line)['{'] as int - multiset(line)['}'] as int
  {
    PlainCounts(line, "");
    assert line + "" == line;
  }

  // ----- where clusters open and close -----

  /** A line of a dump: the pad prefix of the element cluster it opens, `title`, the instance name in the label it starts
      with, and its net braces. */
  datatype Line = Line(prefix: Option<string>, title: Option<string>, net: int)

  type Lines = seq<Line>

  /** The nesting depth before line n. */
  function Depth(lines: Lines, n: nat): int
    requires n <= |lines|
  {
    if n == 0 then 0 else Depth(lines, n - 1) + lines[n - 1].net
  }

  /** The depth of the body of a cluster that line `start` opens. */
  function BodyDepth(lines: Lines, start: nat): int
    requires start <= |lines|
  {
    Depth(lines, start) + 1
  }

  /** The cluster opened on line `start` is still open before line n: the depth never fell below its body's. */
  ghost predicate IsOpen(lines: Lines, start: nat, n: nat)
    requires n <= |lines|
  {
    start < n && forall t :: start < t <= n ==> Depth(lines, t) >= BodyDepth(lines, start)
  }

  /** A cluster opens on line m while the one opened on line `start` is still open. */
  ghost predicate HoldsOne(lines: Lines, start: nat, m: nat, n: nat)
    requires n <= |lines|
  {
    m < n && lines[m].prefix.Some? && IsOpen(lines, start, m)
  }

  ghost predicate HoldsAnother(lines: Lines, start: nat, n: nat)
    requires n <= |lines|
  {
    exists m: nat :: HoldsOne(lines, start, m, n)
  }

  /** Line n gives a cluster its name: a label right in its body. */
  ghost predicate Labels(lines: Lines, start: nat, n: nat)
    requires n < |lines|
  {
    && lines[n].prefix.None? && lines[n].title.Some?
    && IsOpen(lines, start, n) && Depth(lines, n) == BodyDepth(lines, start)
  }

  /** The first name among those before line n that is not empty. */
  ghost function NameOf(lines: Lines, start: nat, n: nat): string
    requires n <= |lines|
  {
    if n == 0 || NameOf(lines, start, n - 1) != "" then if n == 0 then "" else NameOf(lines, start, n - 1)
    else if Labels(lines, start, n - 1) then lines[n - 1].title.value
    else ""
  }

  /** A cluster while the dump is read. */
  datatype Body = Body(prefix: string, name: string, depth: int, isBin: bool)

  ghost predicate IsBodyOf(lines: Lines, start: nat, n: nat, body: Body)
    requires start < |lines| && n <= |lines|
  {
    && lines[start].prefix == Some(body.prefix)
    && body.name == NameOf(lines, start, n)
    && body.depth == BodyDepth(lines, start)
    && (body.isBin <==> HoldsAnother(lines, start, n))
  }

  /** The lines that open a cluster. */
  function Starts(lines: Lines, n: nat): (starts: seq<nat>)
    requires n <= |lines|
    ensures forall k :: 0 <= k < |starts| ==> starts[k] < n && lines[starts[k]].prefix.Some?
    ensures forall j, k :: 0 <= j < k < |starts| ==> starts[j] < starts[k]
  {
    if n == 0 then []
    else if lines[n - 1].prefix.Some? then Starts(lines, n - 1) + [n - 1]
    else Starts(lines, n - 1)
  }

  ghost predicate AreBodies(lines: Lines, starts: seq<nat>, n: nat, bodies: seq<Body>)
    requires n <= |lines|
  {
    && |bodies| == |starts|
    && forall k :: 0 <= k < |starts| ==> starts[k] < |lines| && IsBodyOf(lines, starts[k], n, bodies[k])
  }

  /** The stack of the clusters that are open, the outermost first. */
  ghost predicate IsStack(lines: Lines, starts: seq<nat>, n: nat, stack: seq<nat>)
    requires n <= |lines|
  {
    && (forall i, j :: 0 <= i < j < |stack| ==> stack[i] < stack[j])
    && (forall i :: 0 <= i < |stack| ==> stack[i] < |starts|)
    && (forall k: nat :: k < |starts| ==> (k in stack <==> IsOpen(lines, starts[k], n)))
  }

  lemma OpenBefore(lines: Lines, start: nat, m: nat, n: nat)
    requires start < m <= n <= |lines| && IsOpen(lines, start, n)
    ensures IsOpen(lines, start, m)
  {
  }

  lemma OpenOneMore(lines: Lines, start: nat, n: nat)
    requires start < n < |lines|
    ensures IsOpen(lines, start, n + 1) <==> IsOpen(lines, start, n) && Depth(lines, n + 1) >= BodyDepth(lines, start)
  {
  }

  /** Of two open clusters the later one lies deeper and inside the other. */
  lemma OpenNest(lines: Lines, outer: nat, inner: nat, n: nat)
    requires outer < inner < n <= |lines| && lines[inner].prefix.Some?
    requires IsOpen(lines, outer, n)
    ensures BodyDepth(lines, outer) < BodyDepth(lines, inner) && HoldsAnother(lines, outer, n)
  {
    OpenBefore(lines, outer, inner, n);
    assert HoldsOne(lines, outer, inner, n);
  }

  lemma HoldsOneMore(lines: Lines, start: nat, n: nat)
    requires n < |lines|
    ensures HoldsAnother(lines, start, n + 1)
            <==> HoldsAnother(lines, start, n) || (lines[n].prefix.Some? && IsOpen(lines, start, n))
  {
    if HoldsAnother(lines, start, n) {
      var m: nat :| HoldsOne(lines, start, m, n);
      assert HoldsOne(lines, start, m, n + 1);
    }
    if lines[n].prefix.Some? && IsOpen(lines, start, n) {
      assert HoldsOne(lines, start, n, n + 1);
    }
    if HoldsAnother(lines, start, n + 1) {
      var m: nat :| HoldsOne(lines, start, m, n + 1);
      assert m == n || HoldsOne(lines, start, m, n);
    }
  }

  // ----- in terms of the lines since -----

  /** Net braces of a stretch of lines. */
  ghost function NetOf(stretch: Lines): int {
    if stretch == [] then 0 else stretch[0].net + NetOf(stretch[1..])
  }

  lemma {:induction false} DepthRises(lines: Lines, from: nat, n: nat)
    requires from <= n <= |lines|
    ensures Depth(lines, n) == Depth(lines, from) + NetOf(lines[from..n])
    decreases n - from
  {
    if from < n {
      DepthRises(lines, from + 1, n);
      assert lines[from..n][1..] == lines[from + 1..n];
    }
  }

  /** A cluster is open as long as, from the line that opens it on, more braces have opened than closed. */
  lemma {:induction false} OpenMeans(lines: Lines, start: nat, n: nat)
    requires n <= |lines|
    ensures IsOpen(lines, start, n) <==> start < n && forall t :: start < t <= n ==> NetOf(lines[start..t]) > 0
  {
    forall t | start < t <= n
      ensures NetOf(lines[start..t]) == Depth(lines, t) - Depth(lines, start)
    {
      DepthRises(lines, start, t);
    }
  }

  /** A label is right in its body if it is open with one brace since. */
  lemma LabelMeans(lines: Lines, start: nat, n: nat)
    requires n < |lines|
    ensures Labels(lines, start, n) <==>
            && lines[n].prefix.None? && lines[n].title.Some?
            && IsOpen(lines, start, n) && NetOf(lines[start..n]) == 1
  {
    if start < n {
      DepthRises(lines, start, n);
    }
  }

  // ----- reading the lines -----

  lemma {:induction false} NewIsUnnamed(lines: Lines, start: nat, n: nat)
    requires n <= start + 1 && n <= |lines|
    ensures NameOf(lines, start, n) == ""
  {
    if n > 0 {
      NewIsUnnamed(lines, start, n - 1);
    }
  }

  /** What a line that opens a cluster does to one opened before: it becomes a bin if it is open. */
  lemma OpeningMarks(lines: Lines, start: nat, n: nat, body: Body)
    requires start < n < |lines| && lines[n].prefix.Some? && IsBodyOf(lines, start, n, body)
    ensures IsBodyOf(lines, start, n + 1, if IsOpen(lines, start, n) then body.(isBin := true) else body)
  {
    HoldsOneMore(lines, start, n);
  }

  /** A line that opens a cluster marks the innermost open one; those around it have been marked before. */
  method OpenCluster(lines: Lines, n: nat, bodies: seq<Body>, stack: seq<nat>, depth: int)
    returns (more: seq<Body>, pushed: seq<nat>)
    requires n < |lines| && lines[n].prefix.Some? && depth == Depth(lines, n)
    requires AreBodies(lines, Starts(lines, n), n, bodies) && IsStack(lines, Starts(lines, n), n, stack)
    ensures AreBodies(lines, Starts(lines, n + 1), n + 1, more)
    ensures pushed == stack + [|bodies|]
  {
    more := bodies;
    if stack != [] {
      var parent := stack[|stack| - 1];
      more := more[parent := more[parent].(isBin := true)];
    }
    BodiesAreMarked(lines, n, bodies, stack, more);
    BodiesOneMore(lines, n, more);
    more, pushed := more + [Body(lines[n].prefix.value, "", depth + 1, false)], stack + [|bodies|];
  }

  lemma BodiesOneMore(lines: Lines, n: nat, bodies: seq<Body>)
    requires n < |lines| && lines[n].prefix.Some? && AreBodies(lines, Starts(lines, n), n + 1, bodies)
    ensures AreBodies(lines, Starts(lines, n + 1), n + 1,
                      bodies + [Body(lines[n].prefix.value, "", Depth(lines, n) + 1, false)])
  {
    NewBody(lines, n);
  }

  lemma {:induction false} NewBody(lines: Lines, n: nat)
    requires n < |lines| && lines[n].prefix.Some?
    ensures IsBodyOf(lines, n, n + 1, Body(lines[n].prefix.value, "", Depth(lines, n) + 1, false))
  {
    NewIsUnnamed(lines, n, n + 1);
    assert !HoldsAnother(lines, n, n + 1);
  }

  lemma {:induction false} BodiesAreMarked(lines: Lines, n: nat, bodies: seq<Body>, stack: seq<nat>, marked: seq<Body>)
    requires n < |lines| && lines[n].prefix.Some?
    requires AreBodies(lines, Starts(lines, n), n, bodies) && IsStack(lines, Starts(lines, n), n, stack)
    requires marked == if stack == [] then bodies
                       else var parent := stack[|stack| - 1]; bodies[parent := bodies[parent].(isBin := true)]
    ensures AreBodies(lines, Starts(lines, n), n + 1, marked)
  {
    var starts := Starts(lines, n);
    forall k | 0 <= k < |starts|
      ensures IsBodyOf(lines, starts[k], n + 1, marked[k])
    {
      OpeningMarks(lines, starts[k], n, bodies[k]);
      OuterIsMarked(lines, starts, n, bodies, stack, k);
      if stack != [] && k == stack[|stack| - 1] {
        assert k in stack;
      }
    }
  }

  lemma {:induction false} OuterIsMarked(lines: Lines, starts: seq<nat>, n: nat, bodies: seq<Body>, stack: seq<nat>,
                                         k: nat)
    requires n <= |lines| && starts == Starts(lines, n) && k < |starts|
    requires AreBodies(lines, starts, n, bodies) && IsStack(lines, starts, n, stack)
    ensures IsOpen(lines, starts[k], n) && k != stack[|stack| - 1] ==> bodies[k].isBin
    ensures IsOpen(lines, starts[k], n) ==> stack != []
  {
    if IsOpen(lines, starts[k], n) {
      var i :| 0 <= i < |stack| && stack[i] == k;
      if i < |stack| - 1 {
        OpenNest(lines, starts[k], starts[stack[|stack| - 1]], n);
      }
    }
  }

  /** A line that opens none may name the innermost open cluster. */
  method NameCluster(lines: Lines, n: nat, bodies: seq<Body>, stack: seq<nat>, depth: int) returns (named: seq<Body>)
    requires n < |lines| && lines[n].prefix.None? && depth == Depth(lines, n)
    requires AreBodies(lines, Starts(lines, n), n, bodies) && IsStack(lines, Starts(lines, n), n, stack)
    ensures AreBodies(lines, Starts(lines, n + 1), n + 1, named)
  {
    named := bodies;
    ghost var starts := Starts(lines, n);
    if stack != [] {
      var index := stack[|stack| - 1];
      if bodies[index].name == "" && bodies[index].depth == depth && lines[n].title.Some? {
        named := bodies[index := bodies[index].(name := lines[n].title.value)];
      }
    }
    forall k | 0 <= k < |starts|
      ensures IsBodyOf(lines, starts[k], n + 1, named[k])
    {
      HoldsOneMore(lines, starts[k], n);
      InnermostIsLabelled(lines, starts, n, stack, k);
    }
  }

  lemma {:induction false} InnermostIsLabelled(lines: Lines, starts: seq<nat>, n: nat, stack: seq<nat>, k: nat)
    requires n < |lines| && starts == Starts(lines, n) && k < |starts| && IsStack(lines, starts, n, stack)
    ensures Labels(lines, starts[k], n) <==>
            && lines[n].prefix.None? && lines[n].title.Some? && stack != [] && k == stack[|stack| - 1]
            && Depth(lines, n) == BodyDepth(lines, starts[k])
  {
    if IsOpen(lines, starts[k], n) {
      var i :| 0 <= i < |stack| && stack[i] == k;
      if i < |stack| - 1 {
        var top := stack[|stack| - 1];
        assert top in stack;
        OpenNest(lines, starts[k], starts[top], n);
      }
    }
    if stack != [] && k == stack[|stack| - 1] {
      assert k in stack;
    }
  }

  /** Pops the clusters that a line closed. */
  method CloseClusters(lines: Lines, n: nat, bodies: seq<Body>, stack: seq<nat>, depth: int) returns (rest: seq<nat>)
    requires n < |lines| && depth == Depth(lines, n + 1)
    requires AreBodies(lines, Starts(lines, n + 1), n + 1, bodies)
    requires Rises(lines, Starts(lines, n + 1), stack) && AreOpened(lines, n, stack)
    ensures IsStack(lines, Starts(lines, n + 1), n + 1, rest)
  {
    rest := stack;
    ghost var starts := Starts(lines, n + 1);
    while rest != [] && depth < bodies[rest[|rest| - 1]].depth
      invariant |rest| <= |stack| && rest == stack[..|rest|]
      invariant forall i :: |rest| <= i < |stack| ==> BodyDepth(lines, starts[stack[i]]) > depth
      decreases |rest|
    {
      rest := rest[..|rest| - 1];
    }
    StackAfter(lines, starts, n, stack, rest);
  }

  /** Deeper and deeper bodies. */
  ghost predicate Rises(lines: Lines, starts: seq<nat>, stack: seq<nat>) {
    && (forall i :: 0 <= i < |stack| ==> stack[i] < |starts|)
    && (forall k :: 0 <= k < |starts| ==> starts[k] < |lines|)
    && (forall i, j :: 0 <= i < j < |stack| ==>
          stack[i] < stack[j] && BodyDepth(lines, starts[stack[i]]) < BodyDepth(lines, starts[stack[j]]))
  }

  /** The clusters that were open before line n or open on it. */
  ghost predicate AreOpened(lines: Lines, n: nat, stack: seq<nat>)
    requires n < |lines|
  {
    forall k: nat :: k < |Starts(lines, n + 1)| ==>
      (k in stack <==> Starts(lines, n + 1)[k] == n || IsOpen(lines, Starts(lines, n + 1)[k], n))
  }

  lemma {:induction false} StackAfter(lines: Lines, starts: seq<nat>, n: nat, stack: seq<nat>, rest: seq<nat>)
    requires n < |lines| && starts == Starts(lines, n + 1)
    requires Rises(lines, starts, stack) && AreOpened(lines, n, stack)
    requires |rest| <= |stack| && rest == stack[..|rest|]
    requires rest != [] ==> Depth(lines, n + 1) >= BodyDepth(lines, starts[rest[|rest| - 1]])
    requires forall i :: |rest| <= i < |stack| ==> BodyDepth(lines, starts[stack[i]]) > Depth(lines, n + 1)
    ensures IsStack(lines, starts, n + 1, rest)
  {
    forall k: nat | k < |starts|
      ensures k in rest <==> IsOpen(lines, starts[k], n + 1)
    {
      if starts[k] < n {
        OpenOneMore(lines, starts[k], n);
      }
      if k in stack {
        var i :| 0 <= i < |stack| && stack[i] == k;
        if i < |rest| {
          assert i == |rest| - 1 || BodyDepth(lines, starts[stack[i]]) < BodyDepth(lines, starts[stack[|rest| - 1]]);
        } else {
          forall j | 0 <= j < |rest|
            ensures rest[j] != k
          {
            assert stack[j] < stack[i];
          }
        }
      }
    }
  }

  lemma {:induction false} StackRises(lines: Lines, starts: seq<nat>, n: nat, stack: seq<nat>)
    requires n <= |lines| && starts == Starts(lines, n) && IsStack(lines, starts, n, stack)
    ensures Rises(lines, starts, stack)
  {
    forall i, j | 0 <= i < j < |stack|
      ensures BodyDepth(lines, starts[stack[i]]) < BodyDepth(lines, starts[stack[j]])
    {
      assert stack[i] in stack && stack[i] < stack[j];
      OpenNest(lines, starts[stack[i]], starts[stack[j]], n);
    }
  }

  lemma PushRises(lines: Lines, n: nat, stack: seq<nat>)
    requires n < |lines| && lines[n].prefix.Some? && IsStack(lines, Starts(lines, n), n, stack)
    ensures Rises(lines, Starts(lines, n + 1), stack + [|Starts(lines, n)|])
    ensures AreOpened(lines, n, stack + [|Starts(lines, n)|])
  {
    var starts, pushed := Starts(lines, n), stack + [|Starts(lines, n)|];
    StackRises(lines, starts, n, stack);
    assert Starts(lines, n + 1) == starts + [n];
    forall i | 0 <= i < |stack|
      ensures BodyDepth(lines, starts[stack[i]]) < BodyDepth(lines, n)
    {
      assert stack[i] in stack && IsOpen(lines, starts[stack[i]], n);
    }
    forall k: nat | k < |starts| + 1
      ensures k in pushed <==> (starts + [n])[k] == n || IsOpen(lines, (starts + [n])[k], n)
    {
    }
  }

  /** The clusters of a dump. Each has the first name its own body gives it, and is a bin exactly if another one opens
      while it is open. */
  method ParseClusters(lines: Lines) returns (clusters: seq<Cluster>)
    ensures var starts := Starts(lines, |lines|);
            && |clusters| == |starts|
            && forall k :: 0 <= k < |starts| ==> IsClusterOf(lines, starts[k], clusters[k])
  {
    var bodies: seq<Body> := [];
    var stack: seq<nat> := [];
    var depth := 0;
    for n := 0 to |lines|
      invariant depth == Depth(lines, n)
      invariant AreBodies(lines, Starts(lines, n), n, bodies) && IsStack(lines, Starts(lines, n), n, stack)
    {
      if lines[n].prefix.Some? {
        PushRises(lines, n, stack);
        bodies, stack := OpenCluster(lines, n, bodies, stack, depth);
      } else {
        StackRises(lines, Starts(lines, n), n, stack);
        bodies := NameCluster(lines, n, bodies, stack, depth);
      }
      depth := depth + lines[n].net;
      stack := CloseClusters(lines, n, bodies, stack, depth);
    }
    clusters := seq(|bodies|, k requires 0 <= k < |bodies| => Cluster(bodies[k].prefix, bodies[k].name, bodies[k].isBin));
  }

  ghost predicate IsClusterOf(lines: Lines, start: nat, cluster: Cluster)
    requires start < |lines|
  {
    && lines[start].prefix == Some(cluster.prefix)
    && cluster.name == NameOf(lines, start, |lines|)
    && (cluster.isBin <==> HoldsAnother(lines, start, |lines|))
  }

  /** Clusters nest: one that opens while another is open closes first. */
  lemma ClustersNest(lines: Lines, outer: nat, inner: nat, n: nat)
    requires outer < inner < n <= |lines| && IsOpen(lines, outer, inner) && IsOpen(lines, inner, n)
    ensures IsOpen(lines, outer, n)
  {
    forall t | outer < t <= n
      ensures Depth(lines, t) >= BodyDepth(lines, outer)
    {
      if t > inner {
        assert Depth(lines, t) >= BodyDepth(lines, inner);
        assert Depth(lines, inner) >= BodyDepth(lines, outer);
      }
    }
  }
}
