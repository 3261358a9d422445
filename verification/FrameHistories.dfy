/** What the frame checks of crates/calliope-cli/src/canary/checks.rs say at any time, told from everything that happened
    so far: counts and offsets since the last sample, the unbroken run, and the offsets gathered since a recovery was last
    read. */
module FrameHistories {
  import opened Prelude
  import opened CleanRuns
  import opened HashTables
  import opened ContentChecks
  import opened FrameChecking

  datatype Happening =
    | Line(reading: Reading, arrivalNs: int, arrivalUnix: real)
    | Restarted(nowUnix: real)
    | Sampled
    | Announced(faultEnd: real, windowEnd: real)
    | Judged(faultEnd: real, windowEnd: real)

  type History = seq<Happening>

  function Then(c: Checks, h: Happening): (r: Checks)
    requires c.Valid()
    ensures r.Valid()
  {
    match h
    case Line(reading, arrivalNs, arrivalUnix) => c.Observe(reading, arrivalNs, arrivalUnix)
    case Restarted(nowUnix) => c.Restart(nowUnix)
    case Sampled => c.TakeSample().0
    case Announced(faultEnd, windowEnd) => c.JudgeNext(faultEnd, windowEnd)
    case Judged(faultEnd, windowEnd) => c.TakeRecovery(faultEnd, windowEnd).0
  }

  /** The checks at first, and after each happening. */
  type Trace = seq<Checks>

  ghost predicate IsTrace(t: Trace, hs: History) {
    && |t| == |hs| + 1
    && (forall i :: 0 <= i < |t| ==> t[i].Valid())
    && (forall i :: 0 <= i < |hs| ==> IsStep(t, hs, i))
  }

  ghost predicate IsStep(t: Trace, hs: History, i: nat)
    requires i < |hs| && |t| == |hs| + 1
  {
    t[i].Valid() && t[i + 1] == Then(t[i], hs[i])
  }

  lemma {:induction false} EveryHistoryHasATrace(first: Checks, hs: History) returns (t: Trace)
    requires first.Valid()
    ensures IsTrace(t, hs) && t[0] == first
  {
    if hs == [] {
      t := [first];
    } else {
      var n := |hs| - 1;
      var front := EveryHistoryHasATrace(first, hs[..n]);
      t := front + [Then(front[n], hs[n])];
      forall i | 0 <= i < |hs|
        ensures IsStep(t, hs, i)
      {
        assert i < n ==> IsStep(front, hs[..n], i);
      }
    }
  }

  /** Nothing happened yet. */
  ghost predicate IsFresh(c: Checks) {
    && c.Valid()
    && (c.content.Some? ==> c.content.value.previous.None? && c.content.value.counts == NO_COUNTS)
    && HasNoOffsets(c.av)
    && c.previousFrame == map[] && c.timestamps == NO_TIMESTAMPS && c.run == EMPTY_RUN
    && c.nextWindow.None? && c.recoveryAtWindowEnd.None?
  }

  predicate HasNoOffsets(av: Option<AvSinks>) {
    av.Some? ==> av.value.videoOffset == NO_OFFSETS && av.value.audioOffset == NO_OFFSETS
  }

  lemma FreshAreFresh(videoSink: Option<string>, table: Option<HashTable>, audioSink: Option<string>)
    requires table.Some? ==> table.value.Valid()
    ensures IsFresh(FreshChecks(videoSink, table, audioSink))
  {
  }

  // ----- what never changes -----

  ghost predicate SameParts(c: Checks, d: Checks) {
    && c.videoSink == d.videoSink
    && (c.content.Some? <==> d.content.Some?)
    && (c.content.Some? ==> c.content.value.table == d.content.value.table)
    && (c.av.Some? <==> d.av.Some?)
    && (c.av.Some? ==> c.av.value.audioSink == d.av.value.audioSink)
  }

  lemma {:induction false} PartsStay(t: Trace, hs: History, n: nat)
    requires IsTrace(t, hs) && n <= |hs|
    ensures SameParts(t[0], t[n])
  {
    if n > 0 {
      PartsStay(t, hs, n - 1);
      assert IsStep(t, hs, n - 1);
      PartsStayOnce(t[n - 1], hs[n - 1]);
    }
  }

  lemma PartsStayOnce(c: Checks, h: Happening)
    requires c.Valid()
    ensures SameParts(c, Then(c, h))
  {
    if h.Line? {
      var counted := c.Settle(h.arrivalUnix).CountTimestamps(h.reading, h.arrivalNs);
      var checked := counted.CheckContent(h.reading, h.arrivalNs - h.reading.ptsNs, h.arrivalUnix);
      assert SameParts(c, counted);
      assert SameParts(counted, checked);
    }
  }

  // ----- counting places -----

  type Kind = nat -> bool

  /** The places from `from` on and below n of this kind. */
  ghost function Places(from: nat, n: nat, kind: Kind): set<nat> {
    set i: nat | from <= i < n && kind(i)
  }

  lemma NoPlace(n: nat, kind: Kind)
    ensures Places(n, n, kind) == {}
  {
  }

  lemma OneMorePlace(from: nat, n: nat, kind: Kind)
    requires from <= n
    ensures |Places(from, n + 1, kind)| == |Places(from, n, kind)| + if kind(n) then 1 else 0
  {
    if kind(n) {
      assert Places(from, n + 1, kind) == Places(from, n, kind) + {n};
    } else {
      assert Places(from, n + 1, kind) == Places(from, n, kind);
    }
  }

  /** One past the last of the first n places of this kind. */
  function Since(n: nat, kind: Kind): (k: nat)
    ensures k <= n && (k > 0 ==> kind(k - 1)) && forall i :: k <= i < n ==> !kind(i)
  {
    if n == 0 then 0 else if kind(n - 1) then n else Since(n - 1, kind)
  }

  /** The places since the last one that ends a count. */
  lemma PlacesSince(n: nat, ends: Kind, kind: Kind)
    ensures |Places(Since(n + 1, ends), n + 1, kind)|
            == if ends(n) then 0 else |Places(Since(n, ends), n, kind)| + if kind(n) then 1 else 0
  {
    NoPlace(n + 1, kind);
    OneMorePlace(Since(n, ends), n, kind);
  }

  function Samples(hs: History): Kind {
    (i: nat) => i < |hs| && hs[i].Sampled?
  }

  function Lines(hs: History): Kind {
    (i: nat) => i < |hs| && hs[i].Line?
  }

  predicate IsFrom(hs: History, sink: Option<string>, i: nat) {
    i < |hs| && hs[i].Line? && sink == Some(hs[i].reading.element)
  }

  function FromSink(hs: History, sink: Option<string>): Kind {
    (i: nat) => IsFrom(hs, sink, i)
  }

  // ----- content -----

  predicate IsKnown(table: HashTable, hs: History, sink: Option<string>, i: nat) {
    IsFrom(hs, sink, i) && hs[i].reading.digest in table.indices
  }

  predicate IsUnknown(table: HashTable, hs: History, sink: Option<string>, i: nat) {
    IsFrom(hs, sink, i) && hs[i].reading.digest !in table.indices
  }

  /** Frames of the video whose digest the table has, or has not. */
  function Frames(first: Checks, hs: History, known: bool): Kind
    requires first.content.Some?
  {
    var table, sink := first.content.value.table, first.videoSink;
    if known then (i: nat) => IsKnown(table, hs, sink, i) else (i: nat) => IsUnknown(table, hs, sink, i)
  }

  /** Matched are the frames since the last sample whose digest is known, and mismatched those whose digest is not. */
  ghost predicate CountsFrames(first: Checks, hs: History, n: nat, counts: ContentCounts)
    requires first.content.Some?
  {
    var from := Since(n, Samples(hs));
    && counts.matched == |Places(from, n, Frames(first, hs, true))|
    && counts.mismatched == |Places(from, n, Frames(first, hs, false))|
  }

  lemma {:induction false} ContentIsCounted(t: Trace, hs: History, n: nat)
    requires IsTrace(t, hs) && n <= |hs| && t[0].content.Some? && t[0].content.value.counts == NO_COUNTS
    ensures t[n].content.Some? && CountsFrames(t[0], hs, n, t[n].content.value.counts)
  {
    PartsStay(t, hs, n);
    if n == 0 {
      NoPlace(0, Frames(t[0], hs, true));
      NoPlace(0, Frames(t[0], hs, false));
    } else {
      ContentIsCounted(t, hs, n - 1);
      CountsAfter(t, hs, n - 1);
    }
  }

  lemma CountsOneMore(first: Checks, hs: History, n: nat, before: ContentCounts, after: ContentCounts)
    requires n < |hs| && first.content.Some? && CountsFrames(first, hs, n, before)
    requires IsCountAfter(hs[n], before, after, Frames(first, hs, true)(n), Frames(first, hs, false)(n))
    ensures CountsFrames(first, hs, n + 1, after)
  {
    PlacesSince(n, Samples(hs), Frames(first, hs, true));
    PlacesSince(n, Samples(hs), Frames(first, hs, false));
  }

  /** What one happening does to the two counts. */
  lemma CountsAfter(t: Trace, hs: History, n: nat)
    requires IsTrace(t, hs) && t[0].content.Some? && n < |hs|
    ensures t[n].content.Some? && t[n + 1].content.Some?
    ensures CountsFrames(t[0], hs, n, t[n].content.value.counts) ==>
              CountsFrames(t[0], hs, n + 1, t[n + 1].content.value.counts)
  {
    PartsStay(t, hs, n);
    PartsStay(t, hs, n + 1);
    CountsStep(t, hs, n);
    if CountsFrames(t[0], hs, n, t[n].content.value.counts) {
      CountsOneMore(t[0], hs, n, t[n].content.value.counts, t[n + 1].content.value.counts);
    }
  }

  lemma CountsStep(t: Trace, hs: History, n: nat)
    requires IsTrace(t, hs) && n < |hs| && t[0].content.Some? && SameParts(t[0], t[n]) && SameParts(t[0], t[n + 1])
    ensures IsCountAfter(hs[n], t[n].content.value.counts, t[n + 1].content.value.counts,
                         Frames(t[0], hs, true)(n), Frames(t[0], hs, false)(n))
  {
    assert IsStep(t, hs, n);
    if hs[n].Line? {
      LineCounts(t[n], hs[n]);
    }
  }

  predicate IsCountAfter(h: Happening, before: ContentCounts, after: ContentCounts, known: bool, unknown: bool) {
    if h.Sampled? then after.matched == 0 && after.mismatched == 0
    else
      && after.matched == before.matched + (if known then 1 else 0)
      && after.mismatched == before.mismatched + if unknown then 1 else 0
  }

  lemma LineCounts(c: Checks, h: Happening)
    requires c.Valid() && c.content.Some? && h.Line?
    ensures var before, after := c.content.value.counts, Then(c, h).content.value.counts;
            var video, known := c.videoSink == Some(h.reading.element), h.reading.digest in c.content.value.table.indices;
            && after.matched == before.matched + (if video && known then 1 else 0)
            && after.mismatched == before.mismatched + if video && !known then 1 else 0
  {
  }

  // ----- timestamps -----

  /** The newest of the first n happenings that is a line of this element, unless a restart came after it. */
  function Previous(hs: History, n: nat, element: string): (p: Option<nat>)
    requires n <= |hs|
    ensures p.Some? ==> p.value < n && hs[p.value].Line? && hs[p.value].reading.element == element
    ensures p.Some? ==> forall k :: p.value < k < n ==>
              !hs[k].Restarted? && (hs[k].Line? ==> hs[k].reading.element != element)
    ensures p.None? ==> forall k :: 0 <= k < n && hs[k].Line? && hs[k].reading.element == element ==>
              exists l :: k < l < n && hs[l].Restarted?
  {
    if n == 0 || hs[n - 1].Restarted? then None
    else if hs[n - 1].Line? && hs[n - 1].reading.element == element then Some(n - 1)
    else Previous(hs, n - 1, element)
  }

  lemma {:induction false} PreviousIsKept(t: Trace, hs: History, n: nat, element: string)
    requires IsTrace(t, hs) && t[0].previousFrame == map[] && n <= |hs|
    ensures var p, kept := Previous(hs, n, element), t[n].previousFrame;
            && (element in kept <==> p.Some?)
            && (p.Some? ==> kept[element] == (hs[p.value].reading.ptsNs, hs[p.value].arrivalNs))
  {
    if n > 0 {
      PreviousIsKept(t, hs, n - 1, element);
      assert IsStep(t, hs, n - 1);
      KeepsPrevious(t[n - 1], hs[n - 1], element);
    }
  }

  lemma KeepsPrevious(c: Checks, h: Happening, element: string)
    requires c.Valid()
    ensures var before, after := c.previousFrame, Then(c, h).previousFrame;
            if h.Restarted? then element !in after
            else if h.Line? && h.reading.element == element
            then element in after && after[element] == (h.reading.ptsNs, h.arrivalNs)
            else (element in before <==> element in after) && (element in before ==> after[element] == before[element])
  {
  }

  /** A line whose pts is before that of the line of its element before it. */
  function StepsBack(hs: History): Kind {
    (i: nat) =>
      && i < |hs| && hs[i].Line?
      && var p := Previous(hs, i, hs[i].reading.element);
         p.Some? && hs[i].reading.ptsNs < hs[p.value].reading.ptsNs
  }

  /** A line whose pts moved on by more than a second more than the clock did. */
  function JumpsAhead(hs: History): Kind {
    (i: nat) =>
      && i < |hs| && hs[i].Line?
      && var p := Previous(hs, i, hs[i].reading.element);
         && p.Some?
         && hs[i].reading.ptsNs >= hs[p.value].reading.ptsNs
         && hs[i].reading.ptsNs > hs[p.value].reading.ptsNs + (hs[i].arrivalNs - hs[p.value].arrivalNs) + 1_000_000_000
  }

  ghost predicate CountsSteps(hs: History, n: nat, counts: TimestampCounts) {
    var from := Since(n, Samples(hs));
    && counts.frames == |Places(from, n, Lines(hs))|
    && counts.backward == |Places(from, n, StepsBack(hs))|
    && counts.forwardJumps == |Places(from, n, JumpsAhead(hs))|
  }

  lemma {:induction false} TimestampsAreCounted(t: Trace, hs: History, n: nat)
    requires IsTrace(t, hs) && t[0].timestamps == NO_TIMESTAMPS && t[0].previousFrame == map[] && n <= |hs|
    ensures CountsSteps(hs, n, t[n].timestamps)
  {
    if n == 0 {
      NoSteps(hs, t[n].timestamps);
      assert CountsSteps(hs, n, t[n].timestamps) == true;
    } else {
      TimestampsAreCounted(t, hs, n - 1);
      StepsAfter(t, hs, n);
      assert CountsSteps(hs, n, t[n].timestamps) == true;
    }
  }

  /** What holds at first and stays from one step to the next always holds. */
  lemma {:induction false} Always(holds: nat -> bool, m: nat, n: nat)
    requires holds(0) && n <= m && forall i: nat :: i < m && holds(i) ==> holds(i + 1)
    ensures holds(n)
  {
    if n > 0 {
      Always(holds, m, n - 1);
    }
  }

  lemma NoSteps(hs: History, counts: TimestampCounts)
    requires counts == NO_TIMESTAMPS
    ensures CountsSteps(hs, 0, counts) == true
  {
    NoPlace(0, Lines(hs));
    NoPlace(0, StepsBack(hs));
    NoPlace(0, JumpsAhead(hs));
  }

  lemma StepsOneMore(hs: History, n: nat, before: TimestampCounts, after: TimestampCounts)
    requires n < |hs| && IsStepAfter(hs, n, before, after)
    ensures CountsSteps(hs, n, before) ==> CountsSteps(hs, n + 1, after)
  {
    PlacesSince(n, Samples(hs), Lines(hs));
    PlacesSince(n, Samples(hs), StepsBack(hs));
    PlacesSince(n, Samples(hs), JumpsAhead(hs));
  }

  /** What one happening does to the counts of timestamps. */
  lemma StepsAfter(t: Trace, hs: History, n: nat)
    requires IsTrace(t, hs) && t[0].previousFrame == map[] && 0 < n <= |hs|
    requires CountsSteps(hs, n - 1, t[n - 1].timestamps)
    ensures CountsSteps(hs, n, t[n].timestamps) == true
  {
    StepCounts(t, hs, n - 1);
    StepsOneMore(hs, n - 1, t[n - 1].timestamps, t[n].timestamps);
  }

  predicate IsStepAfter(hs: History, n: nat, before: TimestampCounts, after: TimestampCounts)
    requires n < |hs|
  {
    if hs[n].Sampled? then after == NO_TIMESTAMPS
    else
      && after.frames == before.frames + (if Lines(hs)(n) then 1 else 0)
      && after.backward == before.backward + (if StepsBack(hs)(n) then 1 else 0)
      && after.forwardJumps == before.forwardJumps + if JumpsAhead(hs)(n) then 1 else 0
  }

  lemma StepCounts(t: Trace, hs: History, n: nat)
    requires IsTrace(t, hs) && t[0].previousFrame == map[] && n < |hs|
    ensures IsStepAfter(hs, n, t[n].timestamps, t[n + 1].timestamps)
  {
    assert IsStep(t, hs, n);
    if hs[n].Line? {
      PreviousIsKept(t, hs, n, hs[n].reading.element);
      LineSteps(t[n], hs[n], Previous(hs, n, hs[n].reading.element), hs);
    }
  }

  lemma LineSteps(c: Checks, h: Happening, p: Option<nat>, hs: History)
    requires c.Valid() && h.Line? && (p.Some? ==> p.value < |hs| && hs[p.value].Line?)
    requires h.reading.element in c.previousFrame <==> p.Some?
    requires p.Some? ==>
               c.previousFrame[h.reading.element] == (hs[p.value].reading.ptsNs, hs[p.value].arrivalNs)
    ensures var before, after := c.timestamps, Then(c, h).timestamps;
            && after.frames == before.frames + 1
            && after.backward
               == before.backward + (if p.Some? && h.reading.ptsNs < hs[p.value].reading.ptsNs then 1 else 0)
            && after.forwardJumps
               == before.forwardJumps
                  + if && p.Some? && h.reading.ptsNs >= hs[p.value].reading.ptsNs
                       && h.reading.ptsNs
                          > hs[p.value].reading.ptsNs + (h.arrivalNs - hs[p.value].arrivalNs) + 1_000_000_000
                    then 1 else 0
  {
  }

  // ----- offsets since the last sample -----

  /** The offsets of the lines of this kind, from `from` on and below n. */
  function Offsets(hs: History, from: nat, n: nat, kind: Kind): (r: seq<int>)
    requires n <= |hs|
  {
    if n <= from then []
    else
      Offsets(hs, from, n - 1, kind)
      + if kind(n - 1) && hs[n - 1].Line? then [OffsetOf(hs[n - 1])] else []
  }

  lemma GathersOneMore(mean: OffsetMean, offsets: seq<int>, offset: int)
    requires Gathers(mean, offsets)
    ensures Gathers(mean.Add(offset), offsets + [offset])
    ensures Gathers(NO_OFFSETS, [])
    ensures offsets + [] == offsets
  {
    assert (offsets + [offset])[..|offsets|] == offsets;
  }

  /** The lines of the audio, which are not of the video. */
  predicate IsFromAudio(first: Checks, hs: History, i: nat) {
    first.av.Some? && IsFrom(hs, Some(first.av.value.audioSink), i) && !IsFrom(hs, first.videoSink, i)
  }

  function FromAudio(first: Checks, hs: History): Kind {
    (i: nat) => IsFromAudio(first, hs, i)
  }

  lemma {:induction false} OffsetsAreGathered(t: Trace, hs: History, n: nat)
    requires IsTrace(t, hs) && HasNoOffsets(t[0].av) && n <= |hs| && t[0].av.Some?
    ensures AvGathers(t[0], hs, n, t[n].av)
  {
    if n == 0 {
      NoOffsets(hs, 0, FromSink(hs, t[0].videoSink));
      NoOffsets(hs, 0, FromAudio(t[0], hs));
    } else {
      OffsetsAreGathered(t, hs, n - 1);
      OffsetsOneMore(t, hs, n - 1);
    }
  }

  ghost predicate AvGathers(first: Checks, hs: History, n: nat, av: Option<AvSinks>)
    requires n <= |hs|
  {
    var from := Since(n, Samples(hs));
    && av.Some?
    && Gathers(av.value.videoOffset, Offsets(hs, from, n, FromSink(hs, first.videoSink)))
    && Gathers(av.value.audioOffset, Offsets(hs, from, n, FromAudio(first, hs)))
  }

  lemma OffsetsOneMore(t: Trace, hs: History, n: nat)
    requires IsTrace(t, hs) && n < |hs| && t[0].av.Some?
    ensures AvGathers(t[0], hs, n, t[n].av) ==> AvGathers(t[0], hs, n + 1, t[n + 1].av)
  {
    PartsStay(t, hs, n);
    assert IsStep(t, hs, n);
    AvAfter(t[n], hs[n]);
    var before, after := t[n].av.value, t[n + 1].av.value;
    GathersSince(hs, n, FromSink(hs, t[0].videoSink), before.videoOffset, after.videoOffset);
    GathersSince(hs, n, FromAudio(t[0], hs), before.audioOffset, after.audioOffset);
  }

  function OffsetOf(h: Happening): int
    requires h.Line?
  {
    h.arrivalNs - h.reading.ptsNs
  }

  /** What one happening does to a mean: a sample empties it, and a line of its kind is added. */
  predicate MeanAfter(before: OffsetMean, after: OffsetMean, h: Happening, adds: bool) {
    after == if h.Sampled? then NO_OFFSETS else if adds && h.Line? then before.Add(OffsetOf(h)) else before
  }

  lemma AvAfter(c: Checks, h: Happening)
    requires c.Valid() && c.av.Some?
    ensures var video := h.Line? && c.videoSink == Some(h.reading.element);
            var audio := h.Line? && !video && h.reading.element == c.av.value.audioSink;
            && Then(c, h).av.Some?
            && MeanAfter(c.av.value.videoOffset, Then(c, h).av.value.videoOffset, h, video)
            && MeanAfter(c.av.value.audioOffset, Then(c, h).av.value.audioOffset, h, audio)
  {
    if h.Line? {
      var counted := c.Settle(h.arrivalUnix).CountTimestamps(h.reading, h.arrivalNs);
      CheckingKeepsAv(counted, h.reading, OffsetOf(h), h.arrivalUnix);
    }
  }

  lemma CheckingKeepsAv(c: Checks, reading: Reading, offsetNs: int, arrivalUnix: real)
    requires c.Valid()
    ensures var d := c.CheckContent(reading, offsetNs, arrivalUnix); d.av == c.av && d.videoSink == c.videoSink
  {
  }

  lemma GathersSince(hs: History, n: nat, kind: Kind, before: OffsetMean, after: OffsetMean)
    requires n < |hs| && MeanAfter(before, after, hs[n], kind(n))
    ensures Gathers(before, Offsets(hs, Since(n, Samples(hs)), n, kind)) ==>
              Gathers(after, Offsets(hs, Since(n + 1, Samples(hs)), n + 1, kind))
  {
    var offsets := Offsets(hs, Since(n, Samples(hs)), n, kind);
    if Gathers(before, offsets) {
      GathersOneMore(before, offsets, if hs[n].Line? then OffsetOf(hs[n]) else 0);
    }
  }

  /** What a sample tells: the content counts if content is checked, the timestamps if there was a line, and how far the
      audio is behind the video if both are checked and both had lines, all since the sample before. */
  lemma {:induction false} SampleTells(t: Trace, hs: History, n: nat)
    requires IsTrace(t, hs) && IsFresh(t[0]) && n <= |hs|
    ensures var sample, from := t[n].TakeSample().1, Since(n, Samples(hs));
            && (sample.content.Some? <==> t[0].content.Some?)
            && (sample.content.Some? ==> CountsFrames(t[0], hs, n, sample.content.value))
            && (sample.timestamps.Some? <==> Places(from, n, Lines(hs)) != {})
            && (sample.timestamps.Some? ==> CountsSteps(hs, n, sample.timestamps.value))
            && (if t[0].av.Some?
                then SaysDrift(Offsets(hs, from, n, FromAudio(t[0], hs)),
                               Offsets(hs, from, n, FromSink(hs, t[0].videoSink)), sample.avDriftMs)
                else sample.avDriftMs.None?)
  {
    PartsStay(t, hs, n);
    TimestampsAreCounted(t, hs, n);
    if t[0].content.Some? {
      ContentIsCounted(t, hs, n);
    }
    if t[0].av.Some? {
      OffsetsAreGathered(t, hs, n);
      var av, from := t[n].av.value, Since(n, Samples(hs));
      DriftMeans(av.audioOffset, av.videoOffset, Offsets(hs, from, n, FromAudio(t[0], hs)),
                 Offsets(hs, from, n, FromSink(hs, t[0].videoSink)));
    }
  }

  // ----- the unbroken run -----

  /** A restart, or a frame of the video whose digest is unknown. */
  predicate EndsRun(first: Checks, hs: History, i: nat)
    requires first.content.Some? && i < |hs|
  {
    hs[i].Restarted? || IsUnknown(first.content.value.table, hs, first.videoSink, i)
  }

  /** A frame of the video that does not follow on the one before it. */
  ghost predicate StartsRun(t: Trace, hs: History, i: nat)
    requires IsTrace(t, hs) && t[0].content.Some? && i < |hs|
  {
    && IsKnown(t[0].content.value.table, hs, t[0].videoSink, i)
    && var c := t[i].content;
       c.Some? && c.value.table.frames > 0 && !FollowsOn(c.value, hs[i].reading.digest)
  }

  /** The place from which on the run has not been broken. */
  ghost function RunFrom(t: Trace, hs: History, n: nat): (k: nat)
    requires IsTrace(t, hs) && t[0].content.Some? && n <= |hs|
    ensures k <= n
    ensures k == 0 || EndsRun(t[0], hs, k - 1) || (k < n && StartsRun(t, hs, k))
    ensures forall i :: k <= i < n ==> !EndsRun(t[0], hs, i) && (k < i ==> !StartsRun(t, hs, i))
  {
    if n == 0 || EndsRun(t[0], hs, n - 1) then n
    else if StartsRun(t, hs, n - 1) then n - 1
    else RunFrom(t, hs, n - 1)
  }

  /** The frames with a known digest from `from` on and below n. */
  function GoodFrames(first: Checks, hs: History, from: nat, n: nat): seq<Frame>
    requires first.content.Some? && n <= |hs|
  {
    if n <= from then []
    else
      GoodFrames(first, hs, from, n - 1)
      + if IsKnown(first.content.value.table, hs, first.videoSink, n - 1)
        then [Frame(OffsetOf(hs[n - 1]), hs[n - 1].arrivalUnix)] else []
  }

  ghost function RunFrames(t: Trace, hs: History, n: nat): seq<Frame>
    requires IsTrace(t, hs) && n <= |hs|
  {
    if t[0].content.None? then [] else GoodFrames(t[0], hs, RunFrom(t, hs, n), n)
  }

  /** The run is the good frames since it was last broken. */
  lemma {:induction false} RunIsUnbroken(t: Trace, hs: History, n: nat)
    requires IsTrace(t, hs) && t[0].run == EMPTY_RUN && n <= |hs|
    ensures t[n].run.frames == RunFrames(t, hs, n)
  {
    if n == 0 {
      NoRun(t, hs);
    } else {
      RunIsUnbroken(t, hs, n - 1);
      RunOneMore(t, hs, n - 1);
    }
  }

  lemma NoRun(t: Trace, hs: History)
    requires IsTrace(t, hs) && t[0].run == EMPTY_RUN
    ensures t[0].run.frames == RunFrames(t, hs, 0)
  {
  }

  lemma NoRunOffsets(t: Trace, hs: History)
    requires IsTrace(t, hs) && t[0].content.Some? && t[0].run == EMPTY_RUN
    ensures RunGathers(t, hs, 0, t[0].run)
  {
    NoOffsets(hs, UnreadFrom(t, hs, 0), RunVideo(t[0], hs));
    NoOffsets(hs, UnreadFrom(t, hs, 0), RunAudio(t, hs));
  }

  lemma {:induction false} NoOffsets(hs: History, from: nat, kind: Kind)
    ensures Gathers(NO_OFFSETS, Offsets(hs, from, 0, kind))
  {
  }

  lemma RunOneMore(t: Trace, hs: History, n: nat)
    requires IsTrace(t, hs) && n < |hs|
    ensures t[n].run.frames == RunFrames(t, hs, n) ==>
              t[n + 1].run.frames == RunFrames(t, hs, n + 1)
  {
    if t[0].content.Some? {
      FramesAfter(t, hs, n);
      FramesOneMore(t, hs, n);
    } else {
      NoFramesAfter(t, hs, n);
    }
  }

  lemma NoFramesAfter(t: Trace, hs: History, n: nat)
    requires IsTrace(t, hs) && t[0].content.None? && n < |hs|
    ensures t[n].run.frames == [] ==> t[n + 1].run.frames == []
  {
    PartsStay(t, hs, n);
    assert IsStep(t, hs, n);
    if t[n].run.frames == [] {
      NoFramesStep(t[n], hs[n]);
    }
  }

  lemma NoFramesStep(c: Checks, h: Happening)
    requires c.Valid() && c.content.None? && c.run.frames == []
    ensures Then(c, h).run.frames == []
  {
  }

  /** What one happening does to the run's frames. */
  lemma FramesAfter(t: Trace, hs: History, n: nat)
    requires IsTrace(t, hs) && t[0].content.Some? && n < |hs|
    ensures var frames := if EndsRun(t[0], hs, n) || StartsRun(t, hs, n) then [] else t[n].run.frames;
            t[n + 1].run.frames
            == frames + if IsKnown(t[0].content.value.table, hs, t[0].videoSink, n)
                        then [Frame(OffsetOf(hs[n]), hs[n].arrivalUnix)] else []
  {
    PartsStay(t, hs, n);
    assert IsStep(t, hs, n);
    StepFrames(t[n], hs[n]);
  }

  lemma StepFrames(c: Checks, h: Happening)
    requires c.Valid() && c.content.Some?
    ensures var video, known := IsVideo(c, h), IsKnownTo(c, h);
            var follows := known && FollowsOn(c.content.value, h.reading.digest);
            var frames := if h.Restarted? || (video && !follows) then [] else c.run.frames;
            Then(c, h).run.frames == frames + if known then [Frame(OffsetOf(h), h.arrivalUnix)] else []
  {
    if h.Line? {
      LineFrames(c, h);
    } else {
      OtherFrames(c, h);
    }
  }

  predicate IsVideo(c: Checks, h: Happening) {
    h.Line? && c.videoSink == Some(h.reading.element)
  }

  predicate IsKnownTo(c: Checks, h: Happening)
    requires c.content.Some?
  {
    IsVideo(c, h) && h.reading.digest in c.content.value.table.indices
  }

  lemma OtherFrames(c: Checks, h: Happening)
    requires c.Valid() && !h.Line?
    ensures Then(c, h).run.frames == if h.Restarted? then [] else c.run.frames
  {
  }

  lemma LineFrames(c: Checks, h: Happening)
    requires c.Valid() && c.content.Some? && h.Line?
    ensures var frames := if IsVideo(c, h) && !FollowsOn(c.content.value, h.reading.digest) then [] else c.run.frames;
            Then(c, h).run.frames == frames + if IsKnownTo(c, h) then [Frame(OffsetOf(h), h.arrivalUnix)] else []
  {
    var settled := c.Settle(h.arrivalUnix);
    var counted := settled.CountTimestamps(h.reading, h.arrivalNs);
    CheckedFrames(counted, h.reading, OffsetOf(h), h.arrivalUnix);
  }

  lemma CheckedFrames(c: Checks, reading: Reading, offsetNs: int, arrivalUnix: real)
    requires c.Valid() && c.content.Some?
    ensures var video, known := c.videoSink == Some(reading.element), reading.digest in c.content.value.table.indices;
            var frames := if video && !FollowsOn(c.content.value, reading.digest) then [] else c.run.frames;
            c.CheckContent(reading, offsetNs, arrivalUnix).run.frames
            == frames + if video && known then [Frame(offsetNs, arrivalUnix)] else []
  {
    VerdictMeans(c.content.value, reading.digest);
  }

  lemma FramesOneMore(t: Trace, hs: History, n: nat)
    requires IsTrace(t, hs) && t[0].content.Some? && n < |hs|
    ensures var frames := if EndsRun(t[0], hs, n) || StartsRun(t, hs, n) then [] else RunFrames(t, hs, n);
            RunFrames(t, hs, n + 1)
            == frames + if IsKnown(t[0].content.value.table, hs, t[0].videoSink, n)
                        then [Frame(OffsetOf(hs[n]), hs[n].arrivalUnix)] else []
  {
    assert GoodFrames(t[0], hs, n + 1, n + 1) == [] && GoodFrames(t[0], hs, n, n) == [];
  }

  // ----- the offsets of the run -----

  /** The run is read: by a judgement that finds no recovery kept aside, or when a line or restart settles a window. */
  predicate Reads(c: Checks, h: Happening) {
    match h
    case Line(_, _, arrivalUnix) => c.nextWindow.Some? && arrivalUnix >= c.nextWindow.value.1
    case Restarted(nowUnix) => c.nextWindow.Some? && nowUnix >= c.nextWindow.value.1
    case Judged(_, _) => c.recoveryAtWindowEnd.None?
    case _ => false
  }

  /** The place from which on the run has been neither broken nor read. A line that settles a window counts after that. */
  ghost function UnreadFrom(t: Trace, hs: History, n: nat): (k: nat)
    requires IsTrace(t, hs) && t[0].content.Some? && n <= |hs|
    ensures k <= n
  {
    if n == 0 || EndsRun(t[0], hs, n - 1) || (hs[n - 1].Judged? && Reads(t[n - 1], hs[n - 1])) then n
    else if StartsRun(t, hs, n - 1) || Reads(t[n - 1], hs[n - 1]) then n - 1
    else UnreadFrom(t, hs, n - 1)
  }

  /** The lines of the audio that come while the run's newest frame is on time. */
  ghost predicate IsRunAudio(t: Trace, hs: History, i: nat)
    requires IsTrace(t, hs)
  {
    && i < |hs| && IsFromAudio(t[0], hs, i)
    && var frames := RunFrames(t, hs, i);
       frames != [] && !CameLate(frames, |frames| - 1)
  }

  ghost function RunVideo(first: Checks, hs: History): Kind
    requires first.content.Some?
  {
    Frames(first, hs, true)
  }

  ghost function RunAudio(t: Trace, hs: History): Kind
    requires IsTrace(t, hs)
  {
    (i: nat) => IsRunAudio(t, hs, i)
  }

  /** A mean that is emptied before or after a happening, or not, and to which it adds, or does not. */
  predicate RunMeanAfter(before: OffsetMean, after: OffsetMean, h: Happening, emptied: bool, adds: bool) {
    var start := if emptied then NO_OFFSETS else before;
    after == if adds && h.Line? then start.Add(OffsetOf(h)) else start
  }

  predicate IsEmptied(c: Checks, h: Happening, ends: bool, starts: bool) {
    ends || starts || Reads(c, h)
  }

  lemma RunOffsetsAfter(t: Trace, hs: History, n: nat)
    requires IsTrace(t, hs) && t[0].run == EMPTY_RUN && t[0].content.Some? && n < |hs|
    ensures var c := t[n];
            var emptied := IsEmptied(c, hs[n], EndsRun(t[0], hs, n), StartsRun(t, hs, n));
            && RunMeanAfter(c.run.video, t[n + 1].run.video, hs[n], emptied, RunVideo(t[0], hs)(n))
            && RunMeanAfter(c.run.audio, t[n + 1].run.audio, hs[n], emptied, RunAudio(t, hs)(n))
  {
    assert IsStep(t, hs, n);
    EmptiedIs(t, hs, n);
    StepOffsets(t[n], hs[n]);
    HeardIs(t, hs, n);
  }

  /** What a step sees is what the history says. */
  lemma EmptiedIs(t: Trace, hs: History, n: nat)
    requires IsTrace(t, hs) && t[0].content.Some? && n < |hs|
    ensures var c, h := t[n], hs[n];
            && c.content.Some?
            && (IsKnownTo(c, h) <==> RunVideo(t[0], hs)(n))
            && (StepEmpties(c, h) <==> IsEmptied(c, h, EndsRun(t[0], hs, n), StartsRun(t, hs, n)))
  {
    PartsStay(t, hs, n);
  }

  lemma HeardIs(t: Trace, hs: History, n: nat)
    requires IsTrace(t, hs) && t[0].run == EMPTY_RUN && t[0].content.Some? && n < |hs|
    ensures IsHeardWith(t[n], hs[n]) <==> RunAudio(t, hs)(n)
  {
    PartsStay(t, hs, n);
    RunIsUnbroken(t, hs, n);
    StartMeans(RunFrames(t, hs, n));
  }

  ghost predicate StepEmpties(c: Checks, h: Happening)
    requires c.Valid() && c.content.Some?
  {
    || h.Restarted?
    || (IsVideo(c, h) && !FollowsOn(c.content.value, h.reading.digest))
    || Reads(c, h)
  }

  /** A line of the audio that comes while the newest frame of the run is on time. */
  predicate IsHeardWith(c: Checks, h: Happening) {
    h.Line? && !IsVideo(c, h) && c.av.Some? && h.reading.element == c.av.value.audioSink && c.run.Start().Some?
  }

  lemma StepOffsets(c: Checks, h: Happening)
    requires c.Valid() && c.content.Some?
    ensures RunMeanAfter(c.run.video, Then(c, h).run.video, h, StepEmpties(c, h), IsKnownTo(c, h))
    ensures RunMeanAfter(c.run.audio, Then(c, h).run.audio, h, StepEmpties(c, h), IsHeardWith(c, h))
  {
    if h.Line? {
      var settled := c.Settle(h.arrivalUnix);
      var counted := settled.CountTimestamps(h.reading, h.arrivalNs);
      var checked := counted.CheckContent(h.reading, OffsetOf(h), h.arrivalUnix);
      CheckedOffsets(counted, h.reading, OffsetOf(h), h.arrivalUnix);
      GatheredOffsets(checked, h.reading, OffsetOf(h));
    }
  }

  lemma CheckedOffsets(c: Checks, reading: Reading, offsetNs: int, arrivalUnix: real)
    requires c.Valid() && c.content.Some?
    ensures var d := c.CheckContent(reading, offsetNs, arrivalUnix);
            var video, known := c.videoSink == Some(reading.element), reading.digest in c.content.value.table.indices;
            var run := if video && !FollowsOn(c.content.value, reading.digest) then EMPTY_RUN else c.run;
            && d.run == (if video && known then run.AddGoodFrame(offsetNs, arrivalUnix) else run)
            && d.videoSink == c.videoSink && d.av == c.av
  {
    VerdictMeans(c.content.value, reading.digest);
  }

  lemma GatheredOffsets(c: Checks, reading: Reading, offsetNs: int)
    ensures var d := c.GatherOffsets(reading, offsetNs);
            var heard := && c.av.Some? && c.videoSink != Some(reading.element)
                         && reading.element == c.av.value.audioSink && c.run.Start().Some?;
            d.run == if heard then c.run.(audio := c.run.audio.Add(offsetNs)) else c.run
  {
  }

  lemma RunGathersOneMore(t: Trace, hs: History, n: nat, kind: Kind, before: OffsetMean, after: OffsetMean)
    requires IsTrace(t, hs) && t[0].content.Some? && n < |hs|
    requires kind(n) ==> hs[n].Line? && !EndsRun(t[0], hs, n)
    requires var emptied := IsEmptied(t[n], hs[n], EndsRun(t[0], hs, n), StartsRun(t, hs, n));
             RunMeanAfter(before, after, hs[n], emptied, kind(n))
    ensures Gathers(before, Offsets(hs, UnreadFrom(t, hs, n), n, kind)) ==>
              Gathers(after, Offsets(hs, UnreadFrom(t, hs, n + 1), n + 1, kind))
  {
    var offset := if hs[n].Line? then OffsetOf(hs[n]) else 0;
    if Gathers(before, Offsets(hs, UnreadFrom(t, hs, n), n, kind)) {
      GathersOneMore(before, Offsets(hs, UnreadFrom(t, hs, n), n, kind), offset);
    }
    GathersOneMore(NO_OFFSETS, [], offset);
    assert Offsets(hs, n, n, kind) == [] && Offsets(hs, n + 1, n + 1, kind) == [];
  }

  ghost predicate RunGathers(t: Trace, hs: History, n: nat, run: Run)
    requires IsTrace(t, hs) && t[0].content.Some? && n <= |hs|
  {
    var from := UnreadFrom(t, hs, n);
    && Gathers(run.video, Offsets(hs, from, n, RunVideo(t[0], hs)))
    && Gathers(run.audio, Offsets(hs, from, n, RunAudio(t, hs)))
  }

  lemma RunOffsetsOneMore(t: Trace, hs: History, n: nat)
    requires IsTrace(t, hs) && t[0].run == EMPTY_RUN && n < |hs| && t[0].content.Some?
    ensures RunGathers(t, hs, n, t[n].run) ==> RunGathers(t, hs, n + 1, t[n + 1].run)
  {
    RunOffsetsAfter(t, hs, n);
    RunGathersOneMore(t, hs, n, RunVideo(t[0], hs), t[n].run.video, t[n + 1].run.video);
    RunGathersOneMore(t, hs, n, RunAudio(t, hs), t[n].run.audio, t[n + 1].run.audio);
  }

  lemma {:induction false} RunOffsetsAreGathered(t: Trace, hs: History, n: nat)
    requires IsTrace(t, hs) && t[0].run == EMPTY_RUN && n <= |hs| && t[0].content.Some?
    ensures RunGathers(t, hs, n, t[n].run)
  {
    var holds := (i: nat) => i < |t| && i <= |hs| && RunGathers(t, hs, i, t[i].run);
    NoRunOffsets(t, hs);
    forall i: nat | i < |hs| && holds(i)
      ensures holds(i + 1)
    {
      RunOffsetsOneMore(t, hs, i);
    }
    Always(holds, |hs|, n);
  }

  // ----- what a recovery tells -----

  /** Whether the run has recovered, and how long that took, is told from its frames; how far the audio is behind the
      video, if both are checked, from the lines since it was last read. */
  lemma {:induction false} RecoveryTells(t: Trace, hs: History, n: nat, faultEnd: real, windowEnd: real)
    requires IsTrace(t, hs) && IsFresh(t[0]) && n <= |hs| && t[0].content.Some?
    ensures var r, from := t[n].Recovery(faultEnd, windowEnd), UnreadFrom(t, hs, n);
            && SaysWhen(RunFrames(t, hs, n), faultEnd, windowEnd, r.recoverySecs)
            && (if t[0].av.Some? && r.recoverySecs.Some?
                then SaysDrift(Offsets(hs, from, n, RunAudio(t, hs)), Offsets(hs, from, n, RunVideo(t[0], hs)),
                               r.avDriftMs)
                else r.avDriftMs.None?)
  {
    var from := UnreadFrom(t, hs, n);
    PartsStay(t, hs, n);
    RunIsUnbroken(t, hs, n);
    RunOffsetsAreGathered(t, hs, n);
    RecoveryMeans(t[n], faultEnd, windowEnd, Offsets(hs, from, n, RunAudio(t, hs)),
                  Offsets(hs, from, n, RunVideo(t[0], hs)));
  }
}
