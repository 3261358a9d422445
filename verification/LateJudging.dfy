/** Judging late changes nothing: crates/calliope-cli/src/canary/mod.rs has the sampler judge each clean window some
    time after its end, while lines and restarts keep coming in. A prompt sampler judges just before the first of
    them that comes at or after the window's end. */
module LateJudging {
  import opened Prelude
  import opened CleanRuns
  import opened HashTables
  import opened FrameChecking

  datatype Event =
    | Line(reading: Reading, arrivalNs: int, arrivalUnix: real)
    | StreamStart(nowUnix: real)
    | SampleTaken

  predicate AtOrAfter(e: Event, time: real) {
    match e
    case Line(_, _, arrivalUnix) => arrivalUnix >= time
    case StreamStart(nowUnix) => nowUnix >= time
    case SampleTaken => false
  }

  function Apply(c: Checks, e: Event): (r: (Checks, seq<FrameSample>))
    requires c.Valid()
    ensures r.0.Valid()
  {
    match e
    case Line(reading, arrivalNs, arrivalUnix) => (c.Observe(reading, arrivalNs, arrivalUnix), [])
    case StreamStart(nowUnix) => (c.Restart(nowUnix), [])
    case SampleTaken => var (taken, sample) := c.TakeSample(); (taken, [sample])
  }

  /** The checks after the events, and the samples taken along the way. */
  function ApplyAll(c: Checks, events: seq<Event>): (r: (Checks, seq<FrameSample>))
    requires c.Valid()
    ensures r.0.Valid()
    decreases events
  {
    if events == [] then (c, [])
    else
      var (next, samples) := Apply(c, events[0]);
      var (last, rest) := ApplyAll(next, events[1..]);
      (last, samples + rest)
  }

  /** How many events come before the first at or after `time`. */
  function Before(events: seq<Event>, time: real): (n: nat)
    ensures n <= |events|
  {
    if events == [] || AtOrAfter(events[0], time) then 0 else 1 + Before(events[1..], time)
  }

  predicate AllBefore(events: seq<Event>, time: real) {
    forall i :: 0 <= i < |events| ==> !AtOrAfter(events[i], time)
  }

  lemma {:induction false} BeforeAreBefore(events: seq<Event>, time: real)
    ensures AllBefore(events[..Before(events, time)], time)
    ensures Before(events, time) < |events| ==> AtOrAfter(events[Before(events, time)], time)
  {
    if events != [] && !AtOrAfter(events[0], time) {
      BeforeAreBefore(events[1..], time);
    }
  }

  lemma {:induction false} ApplyInTwo(c: Checks, a: seq<Event>, b: seq<Event>)
    requires c.Valid()
    ensures var (middle, s1) := ApplyAll(c, a);
            var (last, s2) := ApplyAll(middle, b);
            ApplyAll(c, a + b) == (last, s1 + s2)
    decreases a
  {
    if a == [] {
      assert a + b == b;
      var s2 := ApplyAll(c, b).1;
      assert [] + s2 == s2;
    } else {
      assert (a + b)[0] == a[0] && (a + b)[1..] == a[1..] + b;
      var (next, s0) := Apply(c, a[0]);
      ApplyInTwo(next, a[1..], b);
      var (middle, s1) := ApplyAll(next, a[1..]);
      var s2 := ApplyAll(middle, b).1;
      assert s0 + (s1 + s2) == (s0 + s1) + s2;
    }
  }

  /** The checks with this window and recovery in place of their own. */
  function Carrying(c: Checks, window: Option<(real, real)>, recovery: Option<WindowRecovery>): Checks {
    c.(nextWindow := window, recoveryAtWindowEnd := recovery)
  }

  lemma CountCarries(c: Checks, window: Option<(real, real)>, recovery: Option<WindowRecovery>, reading: Reading,
                     arrivalNs: int)
    ensures Carrying(c, window, recovery).CountTimestamps(reading, arrivalNs)
            == Carrying(c.CountTimestamps(reading, arrivalNs), window, recovery)
    ensures var r := c.CountTimestamps(reading, arrivalNs);
            r.content == c.content && r.nextWindow == c.nextWindow && r.recoveryAtWindowEnd == c.recoveryAtWindowEnd
  {
  }

  lemma ContentCarries(c: Checks, window: Option<(real, real)>, recovery: Option<WindowRecovery>, reading: Reading,
                       offsetNs: int, arrivalUnix: real)
    requires c.Valid()
    ensures Carrying(c, window, recovery).CheckContent(reading, offsetNs, arrivalUnix)
            == Carrying(c.CheckContent(reading, offsetNs, arrivalUnix), window, recovery)
    ensures var r := c.CheckContent(reading, offsetNs, arrivalUnix);
            r.nextWindow == c.nextWindow && r.recoveryAtWindowEnd == c.recoveryAtWindowEnd
  {
  }

  lemma OffsetsCarry(c: Checks, window: Option<(real, real)>, recovery: Option<WindowRecovery>, reading: Reading,
                     offsetNs: int)
    ensures Carrying(c, window, recovery).GatherOffsets(reading, offsetNs)
            == Carrying(c.GatherOffsets(reading, offsetNs), window, recovery)
    ensures var r := c.GatherOffsets(reading, offsetNs);
            r.nextWindow == c.nextWindow && r.recoveryAtWindowEnd == c.recoveryAtWindowEnd
  {
  }

  /** A line that settles no window leaves the window and the recovery as they are, and all else does not depend on
      them. */
  lemma LineCarries(c: Checks, window: Option<(real, real)>, recovery: Option<WindowRecovery>, e: Event)
    requires c.Valid() && e.Line? && c.Settle(e.arrivalUnix) == c
    requires var late := Carrying(c, window, recovery); late.Settle(e.arrivalUnix) == late
    ensures Apply(Carrying(c, window, recovery), e) == (Carrying(Apply(c, e).0, window, recovery), Apply(c, e).1)
    ensures var r := Apply(c, e).0; r.nextWindow == c.nextWindow && r.recoveryAtWindowEnd == c.recoveryAtWindowEnd
  {
    StagesCarry(c, window, recovery, e.reading, e.arrivalNs, e.arrivalUnix);
  }

  /** What a line does once windows are settled: it is counted, then checked for content, then its offset gathered. */
  function Stages(c: Checks, reading: Reading, arrivalNs: int, arrivalUnix: real): Checks
    requires c.Valid()
  {
    Checked(c, reading, arrivalNs, arrivalUnix).GatherOffsets(reading, arrivalNs - reading.ptsNs)
  }

  function Checked(c: Checks, reading: Reading, arrivalNs: int, arrivalUnix: real): Checks
    requires c.Valid()
  {
    c.CountTimestamps(reading, arrivalNs).CheckContent(reading, arrivalNs - reading.ptsNs, arrivalUnix)
  }

  lemma CheckedCarries(c: Checks, window: Option<(real, real)>, recovery: Option<WindowRecovery>, reading: Reading,
                       arrivalNs: int, arrivalUnix: real)
    requires c.Valid()
    ensures Checked(Carrying(c, window, recovery), reading, arrivalNs, arrivalUnix)
            == Carrying(Checked(c, reading, arrivalNs, arrivalUnix), window, recovery)
    ensures var r := Checked(c, reading, arrivalNs, arrivalUnix);
            r.nextWindow == c.nextWindow && r.recoveryAtWindowEnd == c.recoveryAtWindowEnd
  {
    CountCarries(c, window, recovery, reading, arrivalNs);
    var counted := c.CountTimestamps(reading, arrivalNs);
    ContentCarries(counted, window, recovery, reading, arrivalNs - reading.ptsNs, arrivalUnix);
  }

  lemma StagesCarry(c: Checks, window: Option<(real, real)>, recovery: Option<WindowRecovery>, reading: Reading,
                    arrivalNs: int, arrivalUnix: real)
    requires c.Valid()
    ensures Stages(Carrying(c, window, recovery), reading, arrivalNs, arrivalUnix)
            == Carrying(Stages(c, reading, arrivalNs, arrivalUnix), window, recovery)
    ensures var r := Stages(c, reading, arrivalNs, arrivalUnix);
            r.nextWindow == c.nextWindow && r.recoveryAtWindowEnd == c.recoveryAtWindowEnd
  {
    CheckedCarries(c, window, recovery, reading, arrivalNs, arrivalUnix);
    OffsetsCarry(Checked(c, reading, arrivalNs, arrivalUnix), window, recovery, reading, arrivalNs - reading.ptsNs);
  }

  lemma WindowWaitsOnce(c: Checks, window: (real, real), e: Event)
    requires c.Valid() && c.nextWindow.None? && !AtOrAfter(e, window.1)
    ensures var (next, samples) := Apply(c, e);
            Apply(c.JudgeNext(window.0, window.1), e) == (next.JudgeNext(window.0, window.1), samples)
            && next.nextWindow.None?
  {
    if e.Line? {
      assert c.JudgeNext(window.0, window.1) == Carrying(c, Some(window), c.recoveryAtWindowEnd);
      LineCarries(c, Some(window), c.recoveryAtWindowEnd, e);
    }
  }

  /** A window that no event has reached yet is only carried along. */
  lemma {:induction false} WindowWaits(c: Checks, window: (real, real), events: seq<Event>)
    requires c.Valid() && c.nextWindow.None? && AllBefore(events, window.1)
    ensures var (last, samples) := ApplyAll(c, events);
            ApplyAll(c.JudgeNext(window.0, window.1), events) == (last.JudgeNext(window.0, window.1), samples)
            && last.nextWindow.None?
    decreases events
  {
    if events != [] {
      WindowWaitsOnce(c, window, events[0]);
      WindowWaits(Apply(c, events[0]).0, window, events[1..]);
    }
  }

  lemma RecoveryWaitsOnce(c: Checks, recovery: WindowRecovery, e: Event)
    requires c.Valid() && c.nextWindow.None? && c.recoveryAtWindowEnd.None?
    ensures var (next, samples) := Apply(c, e);
            Apply(c.(recoveryAtWindowEnd := Some(recovery)), e) == (next.(recoveryAtWindowEnd := Some(recovery)), samples)
            && next.nextWindow.None? && next.recoveryAtWindowEnd.None?
  {
    if e.Line? {
      LineCarries(c, None, Some(recovery), e);
    }
  }

  /** A settled recovery is only carried along. */
  lemma {:induction false} RecoveryWaits(c: Checks, recovery: WindowRecovery, events: seq<Event>)
    requires c.Valid() && c.nextWindow.None? && c.recoveryAtWindowEnd.None?
    ensures var (last, samples) := ApplyAll(c, events);
            ApplyAll(c.(recoveryAtWindowEnd := Some(recovery)), events)
              == (last.(recoveryAtWindowEnd := Some(recovery)), samples)
            && last.nextWindow.None? && last.recoveryAtWindowEnd.None?
    decreases events
  {
    if events != [] {
      RecoveryWaitsOnce(c, recovery, events[0]);
      RecoveryWaits(Apply(c, events[0]).0, recovery, events[1..]);
    }
  }

  /** The first event at or after the window's end settles the window before anything else. */
  lemma SettlesFirst(c: Checks, window: (real, real), e: Event)
    requires c.Valid() && c.nextWindow.None? && c.recoveryAtWindowEnd.None? && AtOrAfter(e, window.1)
    ensures var settled := c.OffsetsTaken().(recoveryAtWindowEnd := Some(c.Recovery(window.0, window.1)));
            Apply(c.JudgeNext(window.0, window.1), e) == Apply(settled, e)
  {
  }

  /** Without a window to judge, no recovery is settled. */
  lemma {:induction false} RecoveryStaysAway(c: Checks, events: seq<Event>)
    requires c.Valid() && c.nextWindow.None? && c.recoveryAtWindowEnd.None?
    ensures ApplyAll(c, events).0.nextWindow.None? && ApplyAll(c, events).0.recoveryAtWindowEnd.None?
    decreases events
  {
    if events != [] {
      RecoveryStaysAway(Apply(c, events[0]).0, events[1..]);
    }
  }

  // ----- one window -----

  /** From one judgement to the next: the window, and the events until the sampler judges it. */
  datatype Cycle = Cycle(faultEnd: real, windowEnd: real, events: seq<Event>)

  datatype Judged = Judged(checks: Checks, recovery: WindowRecovery, samples: seq<FrameSample>)

  /** A window judged after the given events. */
  function Judge(c: Checks, cycle: Cycle, events: seq<Event>): (j: Judged)
    requires c.Valid()
    ensures j.checks.Valid()
  {
    var (late, samples) := ApplyAll(c.JudgeNext(cycle.faultEnd, cycle.windowEnd), events);
    var (judged, recovery) := late.TakeRecovery(cycle.faultEnd, cycle.windowEnd);
    Judged(judged, recovery, samples)
  }

  /** The window is settled with the run as it was before the first event at or after its end. */
  lemma {:induction false} SettledAtItsEnd(c: Checks, window: (real, real), events: seq<Event>, n: nat)
    requires c.Valid() && c.nextWindow.None? && c.recoveryAtWindowEnd.None?
    requires n < |events| && AllBefore(events[..n], window.1) && AtOrAfter(events[n], window.1)
    ensures var (atEnd, s1) := ApplyAll(c, events[..n]);
            var (afterwards, s2) := ApplyAll(atEnd.OffsetsTaken(), events[n..]);
            ApplyAll(c.JudgeNext(window.0, window.1), events)
              == (afterwards.(recoveryAtWindowEnd := Some(atEnd.Recovery(window.0, window.1))), s1 + s2)
            && afterwards.nextWindow.None? && afterwards.recoveryAtWindowEnd.None?
  {
    assert events == events[..n] + events[n..];
    ApplyInTwo(c.JudgeNext(window.0, window.1), events[..n], events[n..]);
    WindowWaits(c, window, events[..n]);
    RecoveryStaysAway(c, events[..n]);
    var atEnd := ApplyAll(c, events[..n]).0;
    SettlesFirst(atEnd, window, events[n]);
    RecoveryWaits(atEnd.OffsetsTaken(), atEnd.Recovery(window.0, window.1), events[n..]);
  }

  /** Judged before any event reached its end, the window is read as it stands. */
  lemma {:induction false} JudgedAtItsEnd(c: Checks, cycle: Cycle, events: seq<Event>)
    requires c.Valid() && c.nextWindow.None? && c.recoveryAtWindowEnd.None? && AllBefore(events, cycle.windowEnd)
    ensures var (atEnd, samples) := ApplyAll(c, events);
            Judge(c, cycle, events) == Judged(atEnd.OffsetsTaken(), atEnd.Recovery(cycle.faultEnd, cycle.windowEnd), samples)
            && atEnd.nextWindow.None? && atEnd.recoveryAtWindowEnd.None?
  {
    WindowWaits(c, (cycle.faultEnd, cycle.windowEnd), events);
    RecoveryStaysAway(c, events);
  }

  /** However many events come between a window's end and its judgement, the late sampler reads what the run was just
      before the first of them, and leaves the checks as the prompt sampler's are by then. */
  lemma {:induction false} LateIsPrompt(c: Checks, cycle: Cycle, events: seq<Event>)
    requires c.Valid() && c.nextWindow.None? && c.recoveryAtWindowEnd.None?
    ensures var n := Before(events, cycle.windowEnd);
            var prompt := Judge(c, cycle, events[..n]);
            var (afterwards, samples) := ApplyAll(prompt.checks, events[n..]);
            && prompt.recovery == ApplyAll(c, events[..n]).0.Recovery(cycle.faultEnd, cycle.windowEnd)
            && prompt.checks.nextWindow.None? && prompt.checks.recoveryAtWindowEnd.None?
            && Judge(c, cycle, events) == Judged(afterwards, prompt.recovery, prompt.samples + samples)
  {
    var n := Before(events, cycle.windowEnd);
    BeforeAreBefore(events, cycle.windowEnd);
    JudgedAtItsEnd(c, cycle, events[..n]);
    if n < |events| {
      SettledAtItsEnd(c, (cycle.faultEnd, cycle.windowEnd), events, n);
    } else {
      assert events[..n] == events;
      var samples := Judge(c, cycle, events).samples;
      assert samples + [] == samples;
    }
  }

  /** Whenever it is judged, a window has recovered if and only if the run before the first event at or after its end had
      frames, the newest of them not late and within the last five seconds. */
  lemma {:induction false} JudgementSays(c: Checks, cycle: Cycle, events: seq<Event>, audioNs: seq<int>,
                                         videoNs: seq<int>)
    requires c.Valid() && c.nextWindow.None? && c.recoveryAtWindowEnd.None?
    requires var run := ApplyAll(c, events[..Before(events, cycle.windowEnd)]).0.run;
             Gathers(run.audio, audioNs) && Gathers(run.video, videoNs)
    ensures var atEnd, r := ApplyAll(c, events[..Before(events, cycle.windowEnd)]).0, Judge(c, cycle, events).recovery;
            && SaysWhen(atEnd.run.frames, cycle.faultEnd, cycle.windowEnd, r.recoverySecs)
            && (if atEnd.av.Some? && r.recoverySecs.Some? then SaysDrift(audioNs, videoNs, r.avDriftMs)
                else r.avDriftMs.None?)
  {
    var atEnd := ApplyAll(c, events[..Before(events, cycle.windowEnd)]).0;
    LateIsPrompt(c, cycle, events);
    RecoveryMeans(atEnd, cycle.faultEnd, cycle.windowEnd, audioNs, videoNs);
  }

  /** Announcing a window while all events are before its end is as good as announcing it earlier. */
  lemma {:induction false} AnnouncedLater(c: Checks, pending: seq<Event>, cycle: Cycle)
    requires c.Valid() && c.nextWindow.None? && AllBefore(pending, cycle.windowEnd)
    ensures var (caughtUp, samples) := ApplyAll(c, pending);
            var late := Judge(caughtUp, cycle, cycle.events);
            Judge(c, cycle, pending + cycle.events) == late.(samples := samples + late.samples)
  {
    WindowWaits(c, (cycle.faultEnd, cycle.windowEnd), pending);
    ApplyInTwo(c.JudgeNext(cycle.faultEnd, cycle.windowEnd), pending, cycle.events);
  }

  // ----- every window of a run -----

  datatype Outcome = Outcome(checks: Checks, recoveries: seq<WindowRecovery>, samples: seq<FrameSample>)

  /** The sampler as it runs: each window is judged after all the events of its cycle. */
  function RunLate(c: Checks, cycles: seq<Cycle>): Outcome
    requires c.Valid()
    decreases |cycles|
  {
    if cycles == [] then Outcome(c, [], [])
    else
      var j := Judge(c, cycles[0], cycles[0].events);
      var rest := RunLate(j.checks, cycles[1..]);
      Outcome(rest.checks, [j.recovery] + rest.recoveries, j.samples + rest.samples)
  }

  /** A sampler that judges each window just before the first event at or after its end, or at the end of its cycle.
      `pending` are the events that came since the window before was judged. */
  function RunPrompt(c: Checks, pending: seq<Event>, cycles: seq<Cycle>): Outcome
    requires c.Valid()
    decreases |cycles|
  {
    if cycles == [] then var (last, samples) := ApplyAll(c, pending); Outcome(last, [], samples)
    else
      var events := pending + cycles[0].events;
      var n := Before(events, cycles[0].windowEnd);
      var j := Judge(c, cycles[0], events[..n]);
      var rest := RunPrompt(j.checks, events[n..], cycles[1..]);
      Outcome(rest.checks, [j.recovery] + rest.recoveries, j.samples + rest.samples)
  }

  /** Each window was announced before any event reached its end. */
  predicate AnnouncedInTime(cycles: seq<Cycle>) {
    forall i :: 0 < i < |cycles| ==> AllBefore(cycles[i - 1].events, cycles[i].windowEnd)
  }

  lemma {:induction false} BeforeSkips(a: seq<Event>, b: seq<Event>, time: real)
    requires AllBefore(a, time)
    ensures Before(a + b, time) == |a| + Before(b, time)
  {
    if a == [] {
      assert a + b == b;
    } else {
      assert (a + b)[0] == a[0] && (a + b)[1..] == a[1..] + b;
      assert !AtOrAfter(a[0], time);
      BeforeSkips(a[1..], b, time);
    }
  }

  /** Every window. Whatever the delays, the late sampler records the recoveries and samples of the prompt one and
      ends in its state, as long as it announces each window before an event reaches that window's end. */
  lemma {:induction false} LateRunIsPromptRun(c: Checks, pending: seq<Event>, cycles: seq<Cycle>)
    requires c.Valid() && c.nextWindow.None? && c.recoveryAtWindowEnd.None?
    requires AnnouncedInTime(cycles)
    requires cycles != [] ==> AllBefore(pending, cycles[0].windowEnd)
    ensures var (caughtUp, samples) := ApplyAll(c, pending);
            var late, prompt := RunLate(caughtUp, cycles), RunPrompt(c, pending, cycles);
            && prompt.checks == late.checks
            && prompt.recoveries == late.recoveries
            && prompt.samples == samples + late.samples
    decreases |cycles|
  {
    if cycles != [] {
      var events := pending + cycles[0].events;
      var n := Before(events, cycles[0].windowEnd);
      LateIsPrompt(c, cycles[0], events);
      AnnouncedLater(c, pending, cycles[0]);
      BeforeSkips(pending, cycles[0].events, cycles[0].windowEnd);
      PendingStaysInTime(pending, cycles, n);
      var prompt := Judge(c, cycles[0], events[..n]);
      LateRunIsPromptRun(prompt.checks, events[n..], cycles[1..]);
      var (caughtUp, s0) := ApplyAll(c, pending);
      var late := Judge(caughtUp, cycles[0], cycles[0].events);
      var (afterwards, s1) := ApplyAll(prompt.checks, events[n..]);
      var rest := RunLate(afterwards, cycles[1..]).samples;
      SamplesLineUp(prompt.samples, s1, s0, late.samples, rest);
    }
  }

  lemma SamplesLineUp<T>(a: seq<T>, b: seq<T>, c: seq<T>, d: seq<T>, rest: seq<T>)
    requires a + b == c + d
    ensures a + (b + rest) == c + (d + rest)
  {
    assert a + (b + rest) == (a + b) + rest;
  }

  lemma PendingStaysInTime(pending: seq<Event>, cycles: seq<Cycle>, n: nat)
    requires cycles != [] && AnnouncedInTime(cycles) && |pending| <= n <= |pending| + |cycles[0].events|
    ensures AnnouncedInTime(cycles[1..])
    ensures |cycles| > 1 ==> AllBefore((pending + cycles[0].events)[n..], cycles[1].windowEnd)
  {
    var tail := (pending + cycles[0].events)[n..];
    forall i | 0 < i < |cycles[1..]|
      ensures AllBefore(cycles[1..][i - 1].events, cycles[1..][i].windowEnd)
    {
      assert AllBefore(cycles[i + 1 - 1].events, cycles[i + 1].windowEnd);
    }
    if |cycles| > 1 {
      assert AllBefore(cycles[1 - 1].events, cycles[1].windowEnd);
      forall i | 0 <= i < |tail|
        ensures !AtOrAfter(tail[i], cycles[1].windowEnd)
      {
        assert tail[i] == cycles[0].events[n - |pending| + i];
      }
    }
  }

  // ----- a window announced too late -----

  /** Fresh checks of a clip of one frame. */
  function OneFrameClip(): Checks {
    FreshChecks(Some("video"), Some(HashTable(map["d" := [0]], 1)), None)
  }

  function OneFrame(): Event {
    Line(Reading("video", 0, "d"), 0, 19.0)
  }

  /** Windows that end at seconds 10 and 20. Before the first is judged a frame comes at 19 and the stream starts anew at
      25. */
  function TooLate(): seq<Cycle> {
    [Cycle(5.0, 10.0, [OneFrame(), StreamStart(25.0)]), Cycle(15.0, 20.0, [])]
  }

  /** Without the announcement in time the recoveries differ: the prompt sampler finds the run in the second window, the
      late one finds it broken. */
  lemma AnnouncedTooLate()
    ensures OneFrameClip().Valid() && !AnnouncedInTime(TooLate())
    ensures RunPrompt(OneFrameClip(), [], TooLate()).recoveries != RunLate(OneFrameClip(), TooLate()).recoveries
  {
    NotInTime();
    LateFindsNothing();
    PromptFindsTheRun();
    Differ(RunPrompt(OneFrameClip(), [], TooLate()).recoveries, RunLate(OneFrameClip(), TooLate()).recoveries);
  }

  lemma Differ(prompt: seq<WindowRecovery>, late: seq<WindowRecovery>)
    requires |prompt| == |late| == 2 && prompt[1].recoverySecs == Some(4.0) && late[1].recoverySecs == None
    ensures prompt != late
  {
    assert prompt[1] != late[1];
  }

  lemma NotInTime()
    ensures !AnnouncedInTime(TooLate())
  {
    var first, second := TooLate()[1 - 1], TooLate()[1];
    assert AtOrAfter(first.events[1], second.windowEnd);
    assert !AllBefore(first.events, second.windowEnd);
  }

  lemma LateFindsNothing()
    ensures |RunLate(OneFrameClip(), TooLate()).recoveries| == 2
    ensures RunLate(OneFrameClip(), TooLate()).recoveries[1].recoverySecs == None
  {
  }

  /** The frame is right, so while the second window is open the run has it. */
  lemma OneFrameRuns()
    ensures var c := OneFrameClip().JudgeNext(15.0, 20.0);
            && Apply(c, OneFrame()).0.run.frames == [Frame(0, 19.0)]
            && Apply(c, OneFrame()).0.recoveryAtWindowEnd == None
  {
    var c := OneFrameClip().JudgeNext(15.0, 20.0);
    assert c.content.value.Observe("d").1.Next?;
    assert [] + [Frame(0, 19.0)] == [Frame(0, 19.0)];
  }

  lemma JudgedAfterOne(c: Checks, cycle: Cycle, e: Event)
    requires c.Valid()
    ensures Judge(c, cycle, [e]).recovery
            == Apply(c.JudgeNext(cycle.faultEnd, cycle.windowEnd), e).0.TakeRecovery(cycle.faultEnd, cycle.windowEnd).1
  {
    var announced := c.JudgeNext(cycle.faultEnd, cycle.windowEnd);
    var (next, samples) := Apply(announced, e);
    assert [e][0] == e && [e][1..] == [];
    assert ApplyAll(next, []) == (next, []);
    assert ApplyAll(announced, [e]).0 == next;
  }

  lemma OneFrameRecovers(c: Checks)
    requires c.run.frames == [Frame(0, 19.0)] && c.recoveryAtWindowEnd == None
    ensures c.TakeRecovery(15.0, 20.0).1.recoverySecs == Some(4.0)
  {
    assert RunStart(c.run.frames) == Some(19.0);
  }

  lemma SecondWindow()
    ensures Judge(OneFrameClip(), Cycle(15.0, 20.0, []), [OneFrame()]).recovery.recoverySecs == Some(4.0)
  {
    OneFrameRuns();
    JudgedAfterOne(OneFrameClip(), Cycle(15.0, 20.0, []), OneFrame());
    OneFrameRecovers(Apply(OneFrameClip().JudgeNext(15.0, 20.0), OneFrame()).0);
  }

  lemma FirstWindow()
    ensures Judge(OneFrameClip(), TooLate()[0], []).checks == OneFrameClip()
  {
  }

  lemma PromptFindsTheRun()
    ensures |RunPrompt(OneFrameClip(), [], TooLate()).recoveries| == 2
    ensures RunPrompt(OneFrameClip(), [], TooLate()).recoveries[1].recoverySecs == Some(4.0)
  {
    FirstWindow();
    SecondWindow();
    EventsInTime();
    RunOfTwo(OneFrameClip(), TooLate()[0], TooLate()[1], TooLate()[0].events);
  }

  /** Both events come after the first window's end, and one of them before the second's. */
  lemma EventsInTime()
    ensures var first, second := TooLate()[0], TooLate()[1];
            var events := first.events + second.events;
            && Before([] + first.events, first.windowEnd) == 0 && [] + first.events == first.events
            && events[..Before(events, second.windowEnd)] == [OneFrame()]
  {
    var events := [OneFrame(), StreamStart(25.0)];
    assert [] + events == events && events + [] == events;
    assert AtOrAfter(events[0], 10.0) && !AtOrAfter(events[0], 20.0) && AtOrAfter(events[1..][0], 20.0);
  }

  /** The recoveries of a run of two windows whose first is judged before any event. */
  lemma {:induction false} RunOfTwo(c: Checks, first: Cycle, second: Cycle, events: seq<Event>)
    requires c.Valid() && Before([] + first.events, first.windowEnd) == 0 && [] + first.events == events
    requires Judge(c, first, []).checks == c
    ensures var n := Before(events + second.events, second.windowEnd);
            RunPrompt(c, [], [first, second]).recoveries
            == [Judge(c, first, []).recovery, Judge(c, second, (events + second.events)[..n]).recovery]
  {
    assert events[..0] == [] && events[0..] == events;
    assert [first, second][1..] == [second] && [second][1..] == [];
    var n := Before(events + second.events, second.windowEnd);
    assert RunPrompt(c, events, [second]).recoveries == [Judge(c, second, (events + second.events)[..n]).recovery] + [];
  }
}
