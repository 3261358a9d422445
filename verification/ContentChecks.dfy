/** Content checks, crates/calliope-cli/src/canary/checks.rs: a frame's digest is looked up in the table of a
    looped clip, and the position in the loop tells how many frames went missing. */
module ContentChecks {
  import opened Prelude
  import opened HashTables

  // ----- the check -----

  datatype ContentCounts = ContentCounts(matched: nat, mismatched: nat, skipped: nat)

  const NO_COUNTS := ContentCounts(0, 0, 0)

  datatype FrameVerdict = Wrong | AfterSkip | Next

  datatype Content = Content(table: HashTable, previous: Option<nat>, counts: ContentCounts) {
    ghost predicate Valid() {
      table.Valid() && (previous.Some? ==> previous.value < table.frames)
    }

    function Expected(): Option<nat>
      requires table.frames > 0
    {
      if previous.Some? then Some((previous.value + 1) % table.frames) else None
    }

    /** The index a known digest is taken to be at: the expected one if it is among them. */
    function IndexOf(digest: string): nat
      requires table.frames > 0 && digest in table.indices && table.indices[digest] != []
    {
      if Expected().Some? && Expected().value in table.indices[digest] then Expected().value else table.indices[digest][0]
    }

    /** The frames missing before a known digest. */
    function SkippedBefore(digest: string): nat
      requires table.frames > 0 && digest in table.indices && table.indices[digest] != []
    {
      if Expected().Some? then (IndexOf(digest) + table.frames - Expected().value) % table.frames else 0
    }

    function Observe(digest: string): (r: (Content, FrameVerdict))
      requires Valid()
      ensures r.0.Valid() && r.0.table == table
    {
      if digest !in table.indices then
        (this.(previous := Expected(), counts := counts.(mismatched := counts.mismatched + 1)), Wrong)
      else
        var skipped := SkippedBefore(digest);
        (this.(previous := Some(IndexOf(digest)),
               counts := counts.(matched := counts.matched + 1, skipped := counts.skipped + skipped)),
         if skipped == 0 then Next else AfterSkip)
    }
  }

  class ContentCheck {
    const table: HashTable
    var previous: Option<nat>
    var counts: ContentCounts

    ghost function Model(): Content
      reads this
    {
      Content(table, previous, counts)
    }

    constructor (table: HashTable)
      ensures Model() == Content(table, None, NO_COUNTS)
    {
      this.table, previous, counts := table, None, NO_COUNTS;
    }

    method Observe(digest: string) returns (verdict: FrameVerdict)
      requires Model().Valid()
      modifies this
      ensures (Model(), verdict) == old(Model()).Observe(digest)
    {
      var frames := table.frames;
      var expected := if previous.Some? then Some((previous.value + 1) % frames) else None;
      if digest !in table.indices {
        counts := counts.(mismatched := counts.mismatched + 1);
        // the slot of a frame that cannot be placed counts as taken
        previous := expected;
        return Wrong;
      }
      var indices := table.indices[digest];
      counts := counts.(matched := counts.matched + 1);
      var index := if expected.Some? && expected.value in indices then expected.value else indices[0];
      var skipped := if expected.Some? then (index + frames - expected.value) % frames else 0;
      counts := counts.(skipped := counts.skipped + skipped);
      previous := Some(index);
      verdict := if skipped == 0 then Next else AfterSkip;
    }
  }

  // ----- what the position means -----

  function ObserveAll(c: Content, digests: seq<string>): (r: Content)
    requires c.Valid()
    ensures r.Valid() && r.table == c.table
  {
    if digests == [] then c
    else ObserveAll(c, digests[..|digests| - 1]).Observe(digests[|digests| - 1]).0
  }

  /** The place of the first digest that the check knows. */
  function FirstMatch(table: HashTable, digests: seq<string>): (j: Option<nat>)
    ensures j.Some? ==> j.value < |digests| && digests[j.value] in table.indices
    ensures j.Some? ==> forall k :: 0 <= k < j.value ==> digests[k] !in table.indices
    ensures j.None? ==> forall k :: 0 <= k < |digests| ==> digests[k] !in table.indices
  {
    if digests == [] then None
    else
      var n := |digests| - 1;
      var before := FirstMatch(table, digests[..n]);
      if before.None? && digests[n] in table.indices then Some(n) else before
  }

  /** Going round the loop from `expected` by the skipped frames ends at `index`. */
  lemma SkipLeadsToIndex(expected: nat, index: nat, frames: nat)
    requires expected < frames && index < frames
    ensures (expected + (index + frames - expected) % frames) % frames == index
  {
    ModOfSum(index + frames - expected, expected, frames);
    OneTurnVanishes(index, frames);
    ModIs(index, 0, index, frames);
  }

  /** The slot after `moved`, and after the frames that are counted to be missing before the index found. */
  lemma SkipMovesOn(moved: nat, index: nat, frames: nat) returns (expected: nat, skipped: nat)
    requires index < frames
    ensures expected == (moved % frames + 1) % frames == (moved + 1) % frames
    ensures skipped == (index + frames - expected) % frames
    ensures (moved + 1 + skipped) % frames == index
  {
    expected := (moved + 1) % frames;
    skipped := (index + frames - expected) % frames;
    ModOfSum(moved, 1, frames);
    SkipLeadsToIndex(expected, index, frames);
    ModOfSum(moved + 1, skipped, frames);
  }

  /** Where the position is: `moved` slots on, round the clip. */
  predicate IsAt(c: Content, moved: nat)
    requires c.table.frames > 0
  {
    c.previous == Some(moved % c.table.frames)
  }

  /** A frame moves the position by one and by what it is counted to skip. */
  lemma ObserveMovesOn(before: Content, moved: nat, digest: string)
    requires before.Valid() && IsAt(before, moved)
    ensures var after := before.Observe(digest).0;
            && after.counts.skipped >= before.counts.skipped
            && IsAt(after, moved + 1 + (after.counts.skipped - before.counts.skipped))
  {
    if digest in before.table.indices {
      var expected, skipped := SkipMovesOn(moved, before.IndexOf(digest), before.table.frames);
      assert before.Expected() == Some(expected) && before.SkippedBefore(digest) == skipped;
    } else {
      ModOfSum(moved, 1, before.table.frames);
    }
  }

  /** Whatever mix of known and unknown digests arrived since the run's first known one, the position has moved by
      one for each frame and by one for each frame counted as skipped. */
  lemma {:induction false} PositionInvariant(c: Content, digests: seq<string>)
    requires c.Valid() && c.previous.None?
    ensures var j, r := FirstMatch(c.table, digests), ObserveAll(c, digests);
            && r.counts.matched + r.counts.mismatched == c.counts.matched + c.counts.mismatched + |digests|
            && if j.None? then r.previous == None && r.counts.skipped == c.counts.skipped
               else
                 && r.counts.skipped >= c.counts.skipped
                 && r.previous == Some((c.table.indices[digests[j.value]][0] + (|digests| - j.value) - 1
                                        + (r.counts.skipped - c.counts.skipped)) % c.table.frames)
  {
    if digests != [] {
      var n := |digests| - 1;
      PositionInvariant(c, digests[..n]);
      var j, before, r := FirstMatch(c.table, digests[..n]), ObserveAll(c, digests[..n]), ObserveAll(c, digests);
      var frames := c.table.frames;
      if j.None? {
        if digests[n] in c.table.indices {
          ModIs(c.table.indices[digests[n]][0], 0, c.table.indices[digests[n]][0], frames);
        }
      } else {
        var moved := c.table.indices[digests[j.value]][0] + (n - j.value) - 1 + (before.counts.skipped - c.counts.skipped);
        ObserveMovesOn(before, moved, digests[n]);
        assert c.table.indices[digests[j.value]][0] + (n + 1 - j.value) - 1 + (r.counts.skipped - c.counts.skipped)
               == moved + 1 + (r.counts.skipped - before.counts.skipped);
      }
    }
  }

  // ----- what is counted -----

  /** The places of the digests that the table has, or has not. */
  ghost function PlacesOf(table: HashTable, digests: seq<string>, known: bool): set<nat> {
    set i: nat | i < |digests| && (digests[i] in table.indices) == known
  }

  lemma PlacesOneMore(table: HashTable, digests: seq<string>, known: bool)
    requires digests != []
    ensures var n := |digests| - 1;
            |PlacesOf(table, digests, known)|
            == |PlacesOf(table, digests[..n], known)| + if (digests[n] in table.indices) == known then 1 else 0
  {
    var n := |digests| - 1;
    var before, after := PlacesOf(table, digests[..n], known), PlacesOf(table, digests, known);
    if (digests[n] in table.indices) == known {
      assert after == before + {n};
    } else {
      assert after == before;
    }
  }

  /** Every digest of the table counts as matched, and every other one as mismatched. */
  lemma {:induction false} EachIsCounted(c: Content, digests: seq<string>)
    requires c.Valid()
    ensures var r := ObserveAll(c, digests);
            && r.counts.matched == c.counts.matched + |PlacesOf(c.table, digests, true)|
            && r.counts.mismatched == c.counts.mismatched + |PlacesOf(c.table, digests, false)|
  {
    if digests == [] {
      assert PlacesOf(c.table, digests, true) == {} && PlacesOf(c.table, digests, false) == {};
    } else {
      EachIsCounted(c, digests[..|digests| - 1]);
      PlacesOneMore(c.table, digests, true);
      PlacesOneMore(c.table, digests, false);
    }
  }

  ghost predicate FollowsOn(c: Content, digest: string)
    requires c.table.frames > 0
  {
    digest in c.table.indices
    && (c.previous.Some? ==> (c.previous.value + 1) % c.table.frames in c.table.indices[digest])
  }

  /** A frame is wrong exactly if its digest is unknown, and is the next one exactly if one of the places of its digest
      follows on the last frame's, or none came before. A known digest is placed at the place that follows on, or else at
      its first one, and the frames skipped are those from the slot that follows on to there. */
  lemma VerdictMeans(c: Content, digest: string)
    requires c.Valid()
    ensures var (after, verdict) := c.Observe(digest);
            var skipped := after.counts.skipped - c.counts.skipped;
            && (verdict.Wrong? <==> digest !in c.table.indices)
            && (verdict.Next? <==> FollowsOn(c, digest))
            && (verdict.Next? || verdict.Wrong? ==> skipped == 0)
            && (verdict.AfterSkip? ==>
                  && 0 < skipped < c.table.frames
                  && after.previous == Some(c.table.indices[digest][0])
                  && (c.previous.value + 1 + skipped) % c.table.frames == c.table.indices[digest][0])
            && (verdict.Next? && c.previous.Some? ==> after.previous == Some((c.previous.value + 1) % c.table.frames))
            && (verdict.Next? && c.previous.None? ==> after.previous == Some(c.table.indices[digest][0]))
  {
    if digest in c.table.indices && c.previous.Some? {
      var frames, expected, index := c.table.frames, c.Expected().value, c.IndexOf(digest);
      SkipLeadsToIndex(expected, index, frames);
      ModOfSum(c.previous.value + 1, c.SkippedBefore(digest), frames);
      if index == expected {
        OneTurnVanishes(0, frames);
        ModIs(0, 0, 0, frames);
      } else if c.SkippedBefore(digest) == 0 {
        ModIs(expected, 0, expected, frames);
      }
    }
  }

  // ----- how many frames were lost -----

  /** One arriving frame: where it belongs in the endless loop of the clip, and whether it came through intact. */
  datatype Arrival = Arrival(position: nat, intact: bool, digest: string)

  /** Frames of the looped clip in order, with some missing and some corrupt. */
  ghost predicate IsStream(table: HashTable, clip: seq<string>, stream: seq<Arrival>) {
    && table.Valid() && table.frames == |clip|
    && (forall d :: d in table.indices ==> |table.indices[d]| == 1 && clip[table.indices[d][0]] == d)
    && (forall i :: 0 <= i < |clip| ==> clip[i] in table.indices && table.indices[clip[i]] == [i])
    && (forall j, k :: 0 <= j < k < |stream| ==> stream[j].position < stream[k].position)
    && (forall j :: 0 <= j < |stream| ==>
          if stream[j].intact then stream[j].digest == clip[stream[j].position % |clip|]
          else stream[j].digest !in table.indices)
  }

  function Digests(stream: seq<Arrival>): (r: seq<string>)
    ensures |r| == |stream|
  {
    seq(|stream|, j requires 0 <= j < |stream| => stream[j].digest)
  }

  /** The newest intact frame among the first n. */
  function LastIntact(stream: seq<Arrival>, n: nat): (l: Option<nat>)
    requires n <= |stream|
    ensures l.Some? ==> l.value < n && stream[l.value].intact
  {
    if n == 0 then None else if stream[n - 1].intact then Some(n - 1) else LastIntact(stream, n - 1)
  }

  /** The frames that never arrived between two intact ones. */
  function Missing(stream: seq<Arrival>, from: nat, to: nat): int
    requires from <= to < |stream|
  {
    stream[to].position - stream[from].position - (to - from)
  }

  /** The frames that never arrived since the first intact one, up to the last intact one of the first n. */
  function Lost(stream: seq<Arrival>, n: nat): int
    requires n <= |stream|
  {
    if n == 0 then 0
    else
      var l := LastIntact(stream, n - 1);
      Lost(stream, n - 1) + if stream[n - 1].intact && l.Some? then Missing(stream, l.value, n - 1) else 0
  }

  /** No stretch between two intact frames lost a whole clip or more. */
  predicate ShortGaps(stream: seq<Arrival>, n: nat, frames: nat)
    requires n <= |stream|
  {
    n > 0 ==>
      var l := LastIntact(stream, n - 1);
      && ShortGaps(stream, n - 1, frames)
      && (stream[n - 1].intact && l.Some? ==> Missing(stream, l.value, n - 1) < frames)
  }

  lemma {:induction false} PositionsSpread(stream: seq<Arrival>, from: nat, to: nat)
    requires forall j, k :: 0 <= j < k < |stream| ==> stream[j].position < stream[k].position
    requires from <= to < |stream|
    ensures Missing(stream, from, to) >= 0
  {
    if from < to {
      PositionsSpread(stream, from, to - 1);
    }
  }

  /** The skip count of a stretch is its missing frames modulo the clip. */
  lemma SkipIsMissingModulo(previous: nat, steps: nat, position: nat, frames: nat)
    requires frames > 0 && previous + steps <= position
    ensures (position % frames + frames - (previous + steps) % frames) % frames == (position - previous - steps) % frames
  {
    var a := previous + steps;
    var p, q := position / frames, a / frames;
    assert position == p * frames + position % frames && a == q * frames + a % frames;
    QuotientGrows(a, position, frames);
    assert (p - q) * frames == p * frames - q * frames;
    OneTurnVanishes(position % frames - a % frames, frames);
    WholeTurnsVanish(position % frames - a % frames, p - q, frames);
  }

  lemma QuotientGrows(a: nat, b: nat, n: nat)
    requires n > 0 && a <= b
    ensures a / n <= b / n
  {
    QuotientIs(a, n, a / n);
    QuotientIs(b, n, b / n);
    if b / n < a / n {
      MultiplesAreApart(b / n, a / n, n);
    }
  }

  /** An intact frame is found at its own index, and the frames missing before it are counted modulo the clip. */
  lemma IntactIsPlaced(before: Content, arrival: Arrival, reached: nat, missing: nat)
    requires before.Valid() && IsFoundAtItsPlace(before.table, arrival)
    requires before.previous == Some(reached % before.table.frames)
    requires arrival.position == reached + 1 + missing
    ensures var after := before.Observe(arrival.digest).0;
            && after.previous == Some(arrival.position % before.table.frames)
            && after.counts.skipped == before.counts.skipped + missing % before.table.frames
  {
    ModOfSum(reached, 1, before.table.frames);
    SkipIsMissingModulo(reached, 1, arrival.position, before.table.frames);
    assert arrival.position - reached - 1 == missing;
  }

  predicate IsFoundAtItsPlace(table: HashTable, arrival: Arrival)
    requires table.frames > 0
  {
    && arrival.intact
    && arrival.digest in table.indices
    && table.indices[arrival.digest] == [arrival.position % table.frames]
  }

  /** At most the frames lost were counted, and exactly those if no stretch was too long. */
  predicate Counted(skipped: int, lost: int, short: bool) {
    skipped <= lost && (skipped == lost <==> short)
  }

  lemma CountedOneMore(skipped: int, lost: int, short: bool, missing: nat, frames: nat)
    requires Counted(skipped, lost, short) && frames > 0
    ensures Counted(skipped + missing % frames, lost + missing, short && missing < frames)
  {
    RemainderIsSmall(missing, frames);
  }

  /** The slot of the n-th frame if none was lost since the last intact one. */
  function Reached(stream: seq<Arrival>, n: nat): nat
    requires n <= |stream| && LastIntact(stream, n).Some?
  {
    var l := LastIntact(stream, n).value;
    stream[l].position + (n - 1 - l)
  }

  /** Where the check stands after n frames of a stream, when it started with `base` skipped. */
  ghost predicate Tracks(r: Content, base: nat, stream: seq<Arrival>, n: nat)
    requires n <= |stream| && r.table.frames > 0
  {
    var l := LastIntact(stream, n);
    && Counted(r.counts.skipped - base, Lost(stream, n), ShortGaps(stream, n, r.table.frames))
    && r.previous == if l.None? then None else Some(Reached(stream, n) % r.table.frames)
  }

  lemma TracksNext(before: Content, base: nat, clip: seq<string>, stream: seq<Arrival>, n: nat)
    requires before.Valid() && IsStream(before.table, clip, stream) && n < |stream|
    requires Tracks(before, base, stream, n)
    ensures Tracks(before.Observe(stream[n].digest).0, base, stream, n + 1)
  {
    if !stream[n].intact {
      TracksDamaged(before, base, stream, n);
    } else if LastIntact(stream, n).None? {
      TracksFirst(before, base, stream, n);
    } else {
      PositionsSpread(stream, LastIntact(stream, n).value, n);
      TracksIntact(before, base, stream, n);
    }
  }

  lemma TracksDamaged(before: Content, base: nat, stream: seq<Arrival>, n: nat)
    requires before.Valid() && n < |stream| && Tracks(before, base, stream, n)
    requires !stream[n].intact && stream[n].digest !in before.table.indices
    ensures Tracks(before.Observe(stream[n].digest).0, base, stream, n + 1)
  {
    var l := LastIntact(stream, n);
    if l.Some? {
      ModOfSum(Reached(stream, n), 1, before.table.frames);
      assert Reached(stream, n + 1) == Reached(stream, n) + 1;
    }
  }

  lemma {:induction false} TracksFirst(before: Content, base: nat, stream: seq<Arrival>, n: nat)
    requires before.Valid() && n < |stream| && Tracks(before, base, stream, n) && LastIntact(stream, n).None?
    requires IsFoundAtItsPlace(before.table, stream[n])
    ensures Tracks(before.Observe(stream[n].digest).0, base, stream, n + 1)
  {
    assert Reached(stream, n + 1) == stream[n].position;
  }

  lemma {:induction false} TracksIntact(before: Content, base: nat, stream: seq<Arrival>, n: nat)
    requires before.Valid() && n < |stream| && Tracks(before, base, stream, n) && LastIntact(stream, n).Some?
    requires IsFoundAtItsPlace(before.table, stream[n]) && Missing(stream, LastIntact(stream, n).value, n) >= 0
    ensures Tracks(before.Observe(stream[n].digest).0, base, stream, n + 1)
  {
    var l := LastIntact(stream, n).value;
    var missing := Missing(stream, l, n);
    IntactIsPlaced(before, stream[n], Reached(stream, n), missing);
    CountedOneMore(before.counts.skipped - base, Lost(stream, n), ShortGaps(stream, n, before.table.frames), missing,
                   before.table.frames);
    IntactIsLast(stream, n, before.table.frames);
  }

  lemma IntactIsLast(stream: seq<Arrival>, n: nat, frames: nat)
    requires n < |stream| && stream[n].intact && LastIntact(stream, n).Some?
    ensures LastIntact(stream, n + 1) == Some(n) && Reached(stream, n + 1) == stream[n].position
    ensures var missing := Missing(stream, LastIntact(stream, n).value, n);
            && Lost(stream, n + 1) == Lost(stream, n) + missing
            && ShortGaps(stream, n + 1, frames) == (ShortGaps(stream, n, frames) && missing < frames)
  {
  }

  /** On a clip of distinct frames, `skipped` never exceeds the frames lost, and counts exactly those if and only if
      no stretch lost a whole clip. */
  lemma {:induction false} SkippedCountsLostFrames(c: Content, clip: seq<string>, stream: seq<Arrival>, n: nat)
    requires c.Valid() && c.previous.None? && IsStream(c.table, clip, stream) && n <= |stream|
    ensures Tracks(ObserveAll(c, Digests(stream)[..n]), c.counts.skipped, stream, n)
  {
    if n > 0 {
      SkippedCountsLostFrames(c, clip, stream, n - 1);
      ObserveOneMore(c, stream, n - 1);
      TracksNext(ObserveAll(c, Digests(stream)[..n - 1]), c.counts.skipped, clip, stream, n - 1);
    }
  }

  lemma {:induction false} ObserveOneMore(c: Content, stream: seq<Arrival>, n: nat)
    requires c.Valid() && n < |stream|
    ensures ObserveAll(c, Digests(stream)[..n + 1]) == ObserveAll(c, Digests(stream)[..n]).Observe(stream[n].digest).0
  {
    var digests := Digests(stream)[..n + 1];
    assert digests[..n] == Digests(stream)[..n];
  }

  function FirstIntact(stream: seq<Arrival>, n: nat): (f: Option<nat>)
    requires n <= |stream|
    ensures f.Some? ==> f.value < n && stream[f.value].intact
  {
    if n == 0 then None
    else if FirstIntact(stream, n - 1).Some? then FirstIntact(stream, n - 1)
    else if stream[n - 1].intact then Some(n - 1) else None
  }

  /** The stretches add up: every frame between the first and the last intact one that never arrived. */
  lemma {:induction false} LostIsMissing(stream: seq<Arrival>, n: nat)
    requires n <= |stream|
    ensures var f, l := FirstIntact(stream, n), LastIntact(stream, n);
            && (f.Some? <==> l.Some?)
            && (f.Some? ==> f.value <= l.value)
            && Lost(stream, n) == if f.None? then 0 else Missing(stream, f.value, l.value)
  {
    if n > 0 {
      LostIsMissing(stream, n - 1);
    }
  }

  lemma RemainderIsSmall(x: nat, n: nat)
    requires n > 0
    ensures x % n <= x && (x % n == x <==> x < n)
  {
    if x < n {
      ModIs(x, 0, x, n);
    }
  }

  /** The arrivals that came through intact, or damaged. */
  ghost function Arrived(stream: seq<Arrival>, intact: bool): set<nat> {
    set i: nat | i < |stream| && stream[i].intact == intact
  }

  /** In a stream matched are the intact frames, and mismatched the damaged ones. */
  lemma {:induction false} StreamIsCounted(c: Content, clip: seq<string>, stream: seq<Arrival>)
    requires c.Valid() && IsStream(c.table, clip, stream)
    ensures var r := ObserveAll(c, Digests(stream));
            && r.counts.matched == c.counts.matched + |Arrived(stream, true)|
            && r.counts.mismatched == c.counts.mismatched + |Arrived(stream, false)|
  {
    EachIsCounted(c, Digests(stream));
    assert PlacesOf(c.table, Digests(stream), true) == Arrived(stream, true);
    assert PlacesOf(c.table, Digests(stream), false) == Arrived(stream, false);
  }
}
