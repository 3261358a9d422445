/** The checks on a pipeline's checksum lines, crates/calliope-cli/src/canary/checks.rs, and the judge of the
    clean window after each fault. */
module FrameChecking {
  import opened Prelude
  import opened CleanRuns
  import opened ContentChecks
  import opened HashTables

  const PTS_FORWARD_JUMP_NS: int := 1_000_000_000
  const RECOVERY_TAIL_SECS := 5.0
  const NANOS_PER_MILLI := 1_000_000.0

  datatype Reading = Reading(element: string, ptsNs: nat, digest: string)

  datatype TimestampCounts = TimestampCounts(frames: nat, backward: nat, forwardJumps: nat)

  const NO_TIMESTAMPS := TimestampCounts(0, 0, 0)

  datatype AvSinks = AvSinks(audioSink: string, videoOffset: OffsetMean, audioOffset: OffsetMean)

  datatype WindowRecovery = WindowRecovery(recoverySecs: Option<real>, avDriftMs: Option<real>)

  datatype FrameSample = FrameSample(content: Option<ContentCounts>, timestamps: Option<TimestampCounts>,
                                     avDriftMs: Option<real>)

  function Drift(audio: Option<real>, video: Option<real>): Option<real> {
    if audio.Some? && video.Some? then Some((audio.value - video.value) / NANOS_PER_MILLI) else None
  }

  /** The checks as values; the clean run is the list of its frames. */
  datatype Checks = Checks(
    videoSink: Option<string>,
    content: Option<Content>,
    av: Option<AvSinks>,
    previousFrame: map<string, (nat, int)>,
    timestamps: TimestampCounts,
    run: Run,
    nextWindow: Option<(real, real)>,
    recoveryAtWindowEnd: Option<WindowRecovery>)
  {
    ghost predicate Valid() {
      content.Some? ==> content.value.Valid()
    }

    function CountTimestamps(reading: Reading, arrivalNs: int): Checks {
      var counted := timestamps.(frames := timestamps.frames + 1);
      var now :=
        if reading.element !in previousFrame then counted
        else
          var (previousPts, previousArrival) := previousFrame[reading.element];
          var ptsStep, wallStep := reading.ptsNs - previousPts, arrivalNs - previousArrival;
          if ptsStep < 0 then counted.(backward := counted.backward + 1)
          else if ptsStep - wallStep > PTS_FORWARD_JUMP_NS then counted.(forwardJumps := counted.forwardJumps + 1)
          else counted;
      this.(timestamps := now, previousFrame := previousFrame[reading.element := (reading.ptsNs, arrivalNs)])
    }

    predicate FromVideo(reading: Reading) {
      videoSink == Some(reading.element)
    }

    /** A wrong frame or a skip breaks the run; a right frame, after a skip or not, is in the run. */
    function CheckContent(reading: Reading, offsetNs: int, arrivalUnix: real): (r: Checks)
      requires Valid()
      ensures r.Valid()
    {
      if !FromVideo(reading) || content.None? then this
      else
        var (observed, verdict) := content.value.Observe(reading.digest);
        var unbroken := if verdict == Next then run else EMPTY_RUN;
        this.(content := Some(observed),
              run := if verdict == Wrong then unbroken else unbroken.AddGoodFrame(offsetNs, arrivalUnix))
    }

    function GatherOffsets(reading: Reading, offsetNs: int): Checks {
      if av.None? then this
      else if FromVideo(reading) then
        this.(av := Some(av.value.(videoOffset := av.value.videoOffset.Add(offsetNs))))
      else if reading.element == av.value.audioSink then
        this.(av := Some(av.value.(audioOffset := av.value.audioOffset.Add(offsetNs))),
              run := if run.Start().Some? then run.(audio := run.audio.Add(offsetNs)) else run)
      else this
    }

    function Observe(reading: Reading, arrivalNs: int, arrivalUnix: real): (r: Checks)
      requires Valid()
      ensures r.Valid()
    {
      var offsetNs := arrivalNs - reading.ptsNs;
      Settle(arrivalUnix).CountTimestamps(reading, arrivalNs).CheckContent(reading, offsetNs, arrivalUnix)
        .GatherOffsets(reading, offsetNs)
    }

    function Restart(nowUnix: real): (r: Checks)
      requires Valid()
      ensures r.Valid()
    {
      Settle(nowUnix).(
        previousFrame := map[],
        run := EMPTY_RUN,
        content := if content.Some? then Some(content.value.(previous := None)) else None)
    }

    function JudgeNext(faultEnd: real, windowEnd: real): Checks {
      this.(nextWindow := Some((faultEnd, windowEnd)))
    }

    /** How the run stands: recovered when it has a start and its last frame is within the tail of the window. */
    function Recovery(faultEnd: real, windowEnd: real): WindowRecovery {
      var lasted := run.Last() >= windowEnd - RECOVERY_TAIL_SECS;
      var start := run.Start();
      var recoverySecs :=
        if start.Some? && lasted then Some(if start.value - faultEnd > 0.0 then start.value - faultEnd else 0.0) else None;
      WindowRecovery(recoverySecs,
                     if av.Some? && recoverySecs.Some? then Drift(run.audio.Mean(), run.video.Mean()) else None)
    }

    /** Reading the recovery takes the offsets gathered so far. */
    function OffsetsTaken(): Checks {
      this.(run := run.(video := NO_OFFSETS, audio := NO_OFFSETS))
    }

    function Settle(nowUnix: real): Checks {
      if nextWindow.None? || nowUnix < nextWindow.value.1 then this
      else OffsetsTaken().(nextWindow := None,
                           recoveryAtWindowEnd := Some(Recovery(nextWindow.value.0, nextWindow.value.1)))
    }

    function TakeRecovery(faultEnd: real, windowEnd: real): (Checks, WindowRecovery) {
      var judged := this.(nextWindow := None, recoveryAtWindowEnd := None);
      if recoveryAtWindowEnd.Some? then (judged, recoveryAtWindowEnd.value)
      else (judged.OffsetsTaken(), Recovery(faultEnd, windowEnd))
    }

    function TakeSample(): (Checks, FrameSample) {
      (this.(timestamps := NO_TIMESTAMPS,
             av := if av.Some? then Some(av.value.(videoOffset := NO_OFFSETS, audioOffset := NO_OFFSETS)) else None,
             content := if content.Some? then Some(content.value.(counts := NO_COUNTS)) else None),
       FrameSample(if content.Some? then Some(content.value.counts) else None,
                   if timestamps.frames > 0 then Some(timestamps) else None,
                   if av.Some? then Drift(av.value.audioOffset.Mean(), av.value.videoOffset.Mean()) else None))
    }
  }

  // ----- what a recovery says -----

  /** Some frame of the run came earlier than this one, relative to its pts, by more than the limit. */
  ghost predicate CameLate(frames: seq<Frame>, i: nat)
    requires i < |frames|
  {
    exists j :: 0 <= j < |frames| && frames[i].offsetNs - frames[j].offsetNs > LATE_FRAME_NS
  }

  /** Frame k is the first one after the last that came late. */
  ghost predicate IsFirstOnTime(frames: seq<Frame>, k: nat) {
    && k < |frames|
    && (k > 0 ==> CameLate(frames, k - 1))
    && forall i :: k <= i < |frames| ==> !CameLate(frames, i)
  }

  /** The greater of nothing and the time from the fault's end to then. */
  predicate IsTimeSince(secs: real, faultEnd: real, arrival: real) {
    secs >= 0.0 && secs >= arrival - faultEnd && (secs == 0.0 || secs == arrival - faultEnd)
  }

  /** A run has recovered if and only if its newest frame did not come late, and came in the last five seconds of the
      window or after it. The time it took is that to the first frame after the last late one. */
  ghost predicate SaysWhen(frames: seq<Frame>, faultEnd: real, windowEnd: real, secs: Option<real>) {
    && (secs.Some? <==>
          && frames != []
          && !CameLate(frames, |frames| - 1)
          && frames[|frames| - 1].arrival >= windowEnd - 5.0)
    && (secs.Some? ==> exists k: nat :: IsFirstOnTime(frames, k) && IsTimeSince(secs.value, faultEnd, frames[k].arrival))
  }

  function Sum(offsets: seq<int>): int {
    if offsets == [] then 0 else Sum(offsets[..|offsets| - 1]) + offsets[|offsets| - 1]
  }

  predicate Gathers(mean: OffsetMean, offsets: seq<int>) {
    mean.sumNs == Sum(offsets) && mean.frames == |offsets|
  }

  /** How many milliseconds the audio is behind the video, on average; none unless there are both. */
  predicate SaysDrift(audio: seq<int>, video: seq<int>, drift: Option<real>) {
    && (drift.Some? <==> audio != [] && video != [])
    && (drift.Some? ==>
          drift.value * 1_000_000.0 == Sum(audio) as real / |audio| as real - Sum(video) as real / |video| as real)
  }

  lemma DriftMeans(audio: OffsetMean, video: OffsetMean, audioNs: seq<int>, videoNs: seq<int>)
    requires Gathers(audio, audioNs) && Gathers(video, videoNs)
    ensures SaysDrift(audioNs, videoNs, Drift(audio.Mean(), video.Mean()))
  {
    if audioNs != [] && videoNs != [] {
      var difference := audio.Mean().value - video.Mean().value;
      assert difference / NANOS_PER_MILLI * NANOS_PER_MILLI == difference;
    }
  }

  lemma CameLateIsLate(frames: seq<Frame>, i: nat)
    requires i < |frames|
    ensures CameLate(frames, i) <==> IsLate(frames, i)
  {
    OnTimeOffsetIsLeast(frames);
  }

  lemma RecoveryMeans(c: Checks, faultEnd: real, windowEnd: real, audioNs: seq<int>, videoNs: seq<int>)
    requires Gathers(c.run.audio, audioNs) && Gathers(c.run.video, videoNs)
    ensures var r := c.Recovery(faultEnd, windowEnd);
            && SaysWhen(c.run.frames, faultEnd, windowEnd, r.recoverySecs)
            && (if c.av.Some? && r.recoverySecs.Some? then SaysDrift(audioNs, videoNs, r.avDriftMs) else r.avDriftMs.None?)
  {
    DriftMeans(c.run.audio, c.run.video, audioNs, videoNs);
    StartMeans(c.run.frames);
  }

  /** A run has a start unless its newest frame came late. */
  lemma StartMeans(frames: seq<Frame>)
    ensures RunStart(frames).Some? <==> frames != [] && !CameLate(frames, |frames| - 1)
    ensures RunStart(frames).Some? ==>
              exists k: nat :: IsFirstOnTime(frames, k) && frames[k].arrival == RunStart(frames).value
  {
    var n := |frames|;
    forall i | 0 <= i < n
      ensures CameLate(frames, i) <==> IsLate(frames, i)
    {
      CameLateIsLate(frames, i);
    }
    var k := OnTimeFrom(frames, n);
    OnTimeFromIs(frames, n, k);
    assert k < n ==> IsFirstOnTime(frames, k);
  }

  lemma ObserveInStages(c: Checks, reading: Reading, arrivalNs: int, arrivalUnix: real, counted: Checks,
                        checked: Checks)
    requires c.Valid() && counted == c.Settle(arrivalUnix).CountTimestamps(reading, arrivalNs)
    requires var checks := c.videoSink == Some(reading.element) && c.content.Some?;
             checked == if checks then counted.CheckContent(reading, arrivalNs - reading.ptsNs, arrivalUnix) else counted
    ensures checked.GatherOffsets(reading, arrivalNs - reading.ptsNs) == c.Observe(reading, arrivalNs, arrivalUnix)
  {
  }

  /** Before the first line. */
  function FreshChecks(videoSink: Option<string>, table: Option<HashTable>, audioSink: Option<string>): Checks {
    Checks(videoSink,
           if table.Some? then Some(Content(table.value, None, NO_COUNTS)) else None,
           if audioSink.Some? then Some(AvSinks(audioSink.value, NO_OFFSETS, NO_OFFSETS)) else None,
           map[], NO_TIMESTAMPS, EMPTY_RUN, None, None)
  }

  class FrameChecks {
    const videoSink: Option<string>
    const content: ContentCheck?
    var av: Option<AvSinks>
    // pts and arrival of the newest frame, by sink
    var previousFrame: map<string, (nat, int)>
    var timestamps: TimestampCounts
    var cleanRun: CleanRun
    // the announced window: when its fault ended, and when it ends itself
    var nextWindow: Option<(real, real)>
    // set when a line or a restart settles that window
    var recoveryAtWindowEnd: Option<WindowRecovery>

    ghost predicate Valid()
      reads this, cleanRun, content
    {
      cleanRun.Valid() && Model().Valid()
    }

    ghost function Model(): Checks
      reads this, cleanRun, content
    {
      Checks(videoSink, if content != null then Some(content.Model()) else None, av, previousFrame, timestamps,
             cleanRun.Model(), nextWindow, recoveryAtWindowEnd)
    }

    constructor (videoSink: Option<string>, table: Option<HashTable>, audioSink: Option<string>)
      requires table.Some? ==> table.value.Valid()
      ensures Valid() && fresh(cleanRun) && (content != null ==> fresh(content))
      ensures Model() == FreshChecks(videoSink, table, audioSink)
    {
      this.videoSink := videoSink;
      if table.Some? {
        content := new ContentCheck(table.value);
      } else {
        content := null;
      }
      av := if audioSink.Some? then Some(AvSinks(audioSink.value, NO_OFFSETS, NO_OFFSETS)) else None;
      previousFrame, timestamps := map[], NO_TIMESTAMPS;
      cleanRun := new CleanRun();
      nextWindow, recoveryAtWindowEnd := None, None;
    }

    // positions and timestamps of the old run say nothing about the new one
    method Restart(nowUnix: real)
      requires Valid()
      modifies this, cleanRun, content
      ensures Valid() && (cleanRun == old(cleanRun) || fresh(cleanRun))
      ensures Model() == old(Model()).Restart(nowUnix)
    {
      SettleWindowBefore(nowUnix);
      previousFrame := map[];
      cleanRun := new CleanRun();
      if content != null {
        content.previous := None;
      }
    }

    // a line has two arrival times: offsets are taken from the first, windows are compared with the second
    method Observe(reading: Reading, arrivalNs: int, arrivalUnix: real)
      requires Valid()
      modifies this, cleanRun, content
      ensures Valid() && (cleanRun == old(cleanRun) || fresh(cleanRun))
      ensures Model() == old(Model()).Observe(reading, arrivalNs, arrivalUnix)
    {
      ghost var before := Model();
      SettleWindowBefore(arrivalUnix);
      CountTimestamps(reading, arrivalNs);
      ghost var counted := Model();
      var offsetNs := arrivalNs - reading.ptsNs;
      var fromVideo := videoSink == Some(reading.element);
      if fromVideo && content != null {
        CheckContent(reading, offsetNs, arrivalUnix);
      }
      ghost var checked := Model();
      GatherOffsets(reading, offsetNs, fromVideo);
      ObserveInStages(before, reading, arrivalNs, arrivalUnix, counted, checked);
    }

    method GatherOffsets(reading: Reading, offsetNs: int, fromVideo: bool)
      requires Valid() && fromVideo == Model().FromVideo(reading)
      modifies this`av, cleanRun`audioOffset
      ensures Valid() && Model() == old(Model()).GatherOffsets(reading, offsetNs)
    {
      if av.None? {
        return;
      }
      if fromVideo {
        av := Some(av.value.(videoOffset := av.value.videoOffset.Add(offsetNs)));
      } else if reading.element == av.value.audioSink {
        av := Some(av.value.(audioOffset := av.value.audioOffset.Add(offsetNs)));
        if cleanRun.start.Some? {
          cleanRun.audioOffset := cleanRun.audioOffset.Add(offsetNs);
        }
      }
    }

    method CountTimestamps(reading: Reading, arrivalNs: int)
      requires Valid()
      modifies this`timestamps, this`previousFrame
      ensures Valid() && Model() == old(Model()).CountTimestamps(reading, arrivalNs)
    {
      timestamps := timestamps.(frames := timestamps.frames + 1);
      if reading.element in previousFrame {
        var (previousPts, previousArrival) := previousFrame[reading.element];
        var ptsStep, wallStep := reading.ptsNs - previousPts, arrivalNs - previousArrival;
        if ptsStep < 0 {
          timestamps := timestamps.(backward := timestamps.backward + 1);
        } else if ptsStep - wallStep > PTS_FORWARD_JUMP_NS {
          timestamps := timestamps.(forwardJumps := timestamps.forwardJumps + 1);
        }
      }
      previousFrame := previousFrame[reading.element := (reading.ptsNs, arrivalNs)];
    }

    method CheckContent(reading: Reading, offsetNs: int, arrivalUnix: real)
      requires Valid() && content != null && Model().FromVideo(reading)
      modifies this`cleanRun, cleanRun, content
      ensures Valid() && (cleanRun == old(cleanRun) || fresh(cleanRun))
      ensures Model() == old(Model()).CheckContent(reading, offsetNs, arrivalUnix)
    {
      var verdict := content.Observe(reading.digest);
      if verdict != Next {
        cleanRun := new CleanRun();
      }
      if verdict != Wrong {
        cleanRun.AddGoodFrame(offsetNs, arrivalUnix);
      }
    }

    method JudgeNext(faultEnd: real, windowEnd: real)
      requires Valid()
      modifies this`nextWindow
      ensures Valid() && Model() == old(Model()).JudgeNext(faultEnd, windowEnd)
    {
      nextWindow := Some((faultEnd, windowEnd));
    }

    method SettleWindowBefore(nowUnix: real)
      requires Valid()
      modifies this`nextWindow, this`recoveryAtWindowEnd, cleanRun`videoOffset, cleanRun`audioOffset
      ensures Valid() && Model() == old(Model()).Settle(nowUnix)
    {
      if nextWindow.None? {
        return;
      }
      var (faultEnd, windowEnd) := nextWindow.value;
      if nowUnix < windowEnd {
        return;
      }
      nextWindow := None;
      var recovery := RecoveryNow(faultEnd, windowEnd);
      recoveryAtWindowEnd := Some(recovery);
    }

    method TakeRecovery(faultEnd: real, windowEnd: real) returns (recovery: WindowRecovery)
      requires Valid()
      modifies this`nextWindow, this`recoveryAtWindowEnd, cleanRun`videoOffset, cleanRun`audioOffset
      ensures Valid() && (Model(), recovery) == old(Model()).TakeRecovery(faultEnd, windowEnd)
    {
      nextWindow := None;
      if recoveryAtWindowEnd.Some? {
        recovery := recoveryAtWindowEnd.value;
        recoveryAtWindowEnd := None;
      } else {
        recovery := RecoveryNow(faultEnd, windowEnd);
      }
    }

    method RecoveryNow(faultEnd: real, windowEnd: real) returns (recovery: WindowRecovery)
      requires Valid()
      modifies cleanRun`videoOffset, cleanRun`audioOffset
      ensures Valid() && Model() == old(Model()).OffsetsTaken()
      ensures recovery == old(Model()).Recovery(faultEnd, windowEnd)
    {
      var video, audio := cleanRun.videoOffset.Mean(), cleanRun.audioOffset.Mean();
      cleanRun.videoOffset, cleanRun.audioOffset := NO_OFFSETS, NO_OFFSETS;
      var lasted := cleanRun.last >= windowEnd - RECOVERY_TAIL_SECS;
      // a run that began before the fault was over recovered at once
      var recoverySecs :=
        if cleanRun.start.Some? && lasted
        then Some(if cleanRun.start.value - faultEnd > 0.0 then cleanRun.start.value - faultEnd else 0.0)
        else None;
      recovery := WindowRecovery(recoverySecs, if av.Some? && recoverySecs.Some? then Drift(audio, video) else None);
    }

    method TakeSample() returns (sample: FrameSample)
      requires Valid()
      modifies this`timestamps, this`av, content
      ensures Valid() && (Model(), sample) == old(Model()).TakeSample()
    {
      var taken := timestamps;
      timestamps := NO_TIMESTAMPS;
      var avDriftMs := None;
      if av.Some? {
        avDriftMs := Drift(av.value.audioOffset.Mean(), av.value.videoOffset.Mean());
        av := Some(av.value.(videoOffset := NO_OFFSETS, audioOffset := NO_OFFSETS));
      }
      var counts := None;
      if content != null {
        counts := Some(content.counts);
        content.counts := NO_COUNTS;
      }
      sample := FrameSample(counts, if taken.frames > 0 then Some(taken) else None, avDriftMs);
    }
  }
}
