/** Runs of the incident store: every writer of crates/calliope-cli/src/canary/supervisor.rs and mod.rs, with a disk
    error or a crash possible between any two disk steps. Each writer holds the store's lock, so its step is whole. A
    writer that sees a disk error ends, and until the process has ended too the others go on. */
module IncidentRuns {
  import opened Prelude
  import opened LogNames
  import opened DayLogs
  import opened Incidents
  import ContentChecks
  import FrameChecking

  const MEMORY_GROWTH_LIMIT_KIB_PER_HOUR := 512.0

  /** A failing process has seen a disk error and is on its way out. */
  datatype Phase = Down | Serving | Failing

  /** The tasks that write to the store: one supervisor for each pipeline, and the sampler. */
  datatype Writer = Supervisor(pipeline: string) | Sampler

  /** `next` is the serial of the next incident to open, `crashes` how often the process stopped so far, and `running`
      the writers that have not ended. */
  datatype Store = Store(books: Books, phase: Phase, next: nat, crashes: nat, configured: set<string>, running: set<Writer>)

  /** What a sample showed about one pipeline. */
  datatype Sample =
    | ContentSample(content: Option<ContentChecks.ContentCounts>)
    | TimestampSample(timestamps: Option<FrameChecking.TimestampCounts>)
    | MemorySample(growth: Option<real>)
    | RecordingVerdict(file: string, failure: Option<string>)
    | RecordingIdle(idle: string)

  function Faults(tier: Tier, bad: nat): nat {
    if tier == Faulted then 0 else bad
  }

  function SampleKind(sample: Sample): IncidentKind {
    match sample
    case ContentSample(_) => KindContent
    case TimestampSample(_) => KindTimestamps
    case MemorySample(_) => KindMemoryGrowth
    case RecordingVerdict(_, _) => KindRecording
    case RecordingIdle(_) => KindRecording
  }

  /** What is wrong with a sample, if anything, and whether the sample shows that nothing is. */
  function Judge(tier: Tier, sample: Sample): (j: (Option<Cause>, bool))
    ensures j.0.Some? ==> j.0.value.Kind() == SampleKind(sample) && !j.1
  {
    match sample
    case ContentSample(Some(c)) =>
      var faults := Faults(tier, c.mismatched + c.skipped);
      (if faults > 0 then Some(Content(c.mismatched, c.skipped)) else None, c.matched > 0 && faults == 0)
    case TimestampSample(Some(t)) =>
      var faults := Faults(tier, t.backward + t.forwardJumps);
      (if faults > 0 then Some(Timestamps(t.backward, t.forwardJumps)) else None, faults == 0)
    case MemorySample(Some(g)) =>
      (if g > MEMORY_GROWTH_LIMIT_KIB_PER_HOUR then Some(MemoryGrowth(g)) else None, g <= MEMORY_GROWTH_LIMIT_KIB_PER_HOUR)
    case RecordingVerdict(file, failure) =>
      (if failure.Some? then Some(Recording(Some(file), failure.value)) else None, failure.None?)
    case RecordingIdle(idle) => (Some(Recording(None, idle)), false)
    case _ => (None, false)
  }

  datatype Action =
    | Start(pipelines: set<string>, now: nat, disk: nat -> (Outcome, bool))
    | RecordFailure(pipeline: string, tier: Tier, id: string, cause: Cause, failedAt: nat, inGrace: bool,
                    lastError: Option<string>, stderr: string, saveOk: bool)
    | FramesFlow(pipeline: string, now: nat, append: Outcome, saveOk: bool)
    | Recovered(pipeline: string, windowEnd: nat, append: Outcome, saveOk: bool)
    | JudgeSample(pipeline: string, tier: Tier, id: string, sample: Sample, now: nat, append: Outcome, saveOk: bool)
    | Crash

  /** What a supervised run can end with. */
  predicate IsRunEnd(cause: Cause) {
    cause.Kind() == KindDown || cause.Kind() == KindNoRecovery
  }

  function WriterOf(a: Action): Writer
    requires !a.Start? && !a.Crash?
  {
    if a.RecordFailure? || a.FramesFlow? then Supervisor(a.pipeline) else Sampler
  }

  function Writers(pipelines: set<string>): set<Writer> {
    (set p | p in pipelines :: Supervisor(p)) + {Sampler}
  }

  predicate Enabled(s: Store, a: Action) {
    match a
    case Start(_, _, _) => s.phase == Down
    case Crash => s.phase != Down
    case _ =>
      s.phase != Down && WriterOf(a) in s.running && a.pipeline in s.configured && (a.RecordFailure? ==> IsRunEnd(a.cause))
  }

  function Opening(s: Store, a: Action): Incident
    requires a.JudgeSample?
  {
    var placeholder :=
      match SampleKind(a.sample)
      case KindTimestamps => Timestamps(0, 0)
      case KindMemoryGrowth => MemoryGrowth(0.0)
      case KindRecording => Recording(None, "")
      case _ => Content(0, 0);
    Incident(s.next, a.id, a.pipeline, a.tier, a.now, None, placeholder, 0, None, None)
  }

  /** The incident a failure puts: the open one with the restart counted, or a new one unless the failure came too
      soon. */
  function FailurePut(s: Store, a: Action): Option<Incident>
    requires a.RecordFailure?
  {
    var found := Get(s.books.open, a.pipeline, a.cause.Kind());
    if found.Some? then Some(found.value.(restarts := found.value.restarts + 1))
    else if a.inGrace then None
    else Some(Incident(s.next, a.id, a.pipeline, a.tier, a.failedAt, None, a.cause, 1, a.lastError, Some(a.stderr)))
  }

  function Work(s: Store, a: Action): (Books, bool)
    requires !a.Crash?
  {
    match a
    case Start(pipelines, now, disk) => s.books.(open := s.books.file).CloseUnconfigured(pipelines, now, disk)
    case RecordFailure(_, _, _, _, _, _, _, _, saveOk) =>
      var put := FailurePut(s, a);
      if put.Some? then s.books.Put(put.value, saveOk) else (s.books, true)
    case FramesFlow(pipeline, now, append, saveOk) => s.books.Close(pipeline, KindDown, now, append, saveOk)
    case Recovered(pipeline, windowEnd, append, saveOk) =>
      s.books.Close(pipeline, KindNoRecovery, windowEnd, append, saveOk)
    case JudgeSample(_, tier, _, sample, now, append, saveOk) =>
      var (finding, clean) := Judge(tier, sample);
      s.books.Track(Opening(s, a), finding, clean, now, append, saveOk)
  }

  /** A process that cannot close what it must at its start runs no writer. */
  function Step(s: Store, a: Action): Store {
    if a.Crash? then s.(books := s.books.(open := []), phase := Down, crashes := s.crashes + 1, running := {})
    else
      var (books, ok) := Work(s, a);
      if a.Start? then
        Store(books, if ok then Serving else Failing, s.next + 1, s.crashes, a.pipelines,
              if ok then Writers(a.pipelines) else {})
      else
        Store(books, if ok then s.phase else Failing, s.next + 1, s.crashes, s.configured,
              if ok then s.running else s.running - {WriterOf(a)})
  }

  // ----- what every step keeps -----

  /** Different incidents have different serials and are not of one pipeline and kind. */
  predicate Apart(x: Incident, y: Incident) {
    x.serial != y.serial && !x.Is(y.pipeline, y.cause.Kind())
  }

  ghost predicate Distinct(open: seq<Incident>) {
    forall i, j :: 0 <= i < j < |open| ==> Apart(open[i], open[j])
  }

  ghost predicate AreOpen(open: seq<Incident>, next: nat) {
    forall i :: 0 <= i < |open| ==> open[i].serial < next && open[i].end.None?
  }

  ghost predicate AreClosed(log: Log, next: nat) {
    forall i :: 0 <= i < |log| ==>
      log[i].record.serial < next && log[i].record.end.Some? && log[i].prefix == INCIDENTS_PREFIX
  }

  ghost predicate SoundBooks(b: Books, next: nat) {
    && Distinct(b.open) && Distinct(b.file)
    && AreOpen(b.open, next) && AreOpen(b.file, next) && AreClosed(b.log, next)
  }

  /** At most one incident is open for a pipeline and kind, in memory and in the file. Memory and file agree until there
      is a disk error, and what writers have in memory is of configured pipelines only. */
  ghost predicate Sound(s: Store) {
    && SoundBooks(s.books, s.next)
    && (s.phase == Down ==> s.books.open == [] && s.running == {})
    && (s.phase == Serving ==> s.books.file == s.books.open)
    && (s.running != {} ==> AreConfigured(s.books.open, s.configured))
  }

  ghost predicate AreConfigured(open: seq<Incident>, configured: set<string>) {
    forall i :: 0 <= i < |open| ==> open[i].pipeline in configured
  }

  predicate Holds(list: seq<Incident>, serial: nat) {
    exists i :: 0 <= i < |list| && list[i].serial == serial
  }

  /** How often it was tried to append an incident. */
  function Tries(log: Log, serial: nat): nat {
    if log == [] then 0 else Tries(log[..|log| - 1], serial) + if log[|log| - 1].record.serial == serial then 1 else 0
  }

  lemma {:induction false} OthersAre(open: seq<Incident>, pipeline: string, kind: IncidentKind)
    requires Distinct(open)
    ensures Distinct(Others(open, pipeline, kind))
  {
    if open != [] {
      forall i, j | 0 <= i < j < |open[1..]|
        ensures Apart(open[1..][i], open[1..][j])
      {
        assert Apart(open[i + 1], open[j + 1]);
      }
      OthersAre(open[1..], pipeline, kind);
      var rest := Others(open[1..], pipeline, kind);
      forall j | 0 <= j < |rest|
        ensures Apart(open[0], rest[j])
      {
        assert rest[j] in open[1..];
        var k :| 0 <= k < |open[1..]| && open[1..][k] == rest[j];
        assert Apart(open[0], open[k + 1]);
      }
    }
  }

  /** What `put` may replace: only an older version of the same incident. */
  ghost predicate Replaces(open: seq<Incident>, incident: Incident) {
    forall i :: 0 <= i < |open| ==> (open[i].serial == incident.serial <==> open[i].Is(incident.pipeline, incident.cause.Kind()))
  }

  /** A put replaces its own incident only, and any other one in memory stays there. */
  lemma PutIsSound(b: Books, incident: Incident, saveOk: bool, next: nat)
    requires SoundBooks(b, next) && Replaces(b.open, incident)
    requires incident.serial <= next && incident.end.None?
    ensures var (after, ok) := b.Put(incident, saveOk);
            && SoundBooks(after, next + 1)
            && (forall x :: x in after.open ==> x == incident || x in b.open)
            && (forall serial :: Holds(after.open, serial) <==> Holds(b.open, serial) || serial == incident.serial)
            && after.log == b.log
            && after.file == (if ok then after.open else b.file)
            && ok == saveOk
  {
    var others := Others(b.open, incident.pipeline, incident.cause.Kind());
    OthersAre(b.open, incident.pipeline, incident.cause.Kind());
    var after := b.Put(incident, saveOk).0;
    forall i | 0 <= i < |others|
      ensures Apart(others[i], incident) && others[i].serial < next && others[i].end.None?
    {
      assert others[i] in b.open;
      var k :| 0 <= k < |b.open| && b.open[k] == others[i];
      assert b.open[k].serial < next;
    }
    PutHolds(b.open, incident);
  }

  lemma {:induction false} PutHolds(open: seq<Incident>, incident: Incident)
    requires Replaces(open, incident)
    ensures var after := Others(open, incident.pipeline, incident.cause.Kind()) + [incident];
            forall serial :: Holds(after, serial) <==> Holds(open, serial) || serial == incident.serial
  {
    var others := Others(open, incident.pipeline, incident.cause.Kind());
    var after := others + [incident];
    assert after[|others|] == incident;
    forall i | 0 <= i < |open| && open[i].serial != incident.serial
      ensures Holds(after, open[i].serial)
    {
      assert open[i] in others;
      var k :| 0 <= k < |others| && others[k] == open[i];
      assert after[k] == open[i];
    }
    forall k | 0 <= k < |others|
      ensures Holds(open, others[k].serial)
    {
      assert others[k] in open;
    }
  }

  lemma WithoutIsApart(open: seq<Incident>, i: nat, next: nat)
    requires Distinct(open) && AreOpen(open, next) && i < |open|
    ensures Distinct(Without(open, i)) && AreOpen(Without(open, i), next)
    ensures forall j :: 0 <= j < |Without(open, i)| ==> Apart(Without(open, i)[j], open[i])
  {
    var rest := Without(open, i);
    forall j | 0 <= j < |rest|
      ensures rest[j] == open[if j < i then j else j + 1] && Apart(rest[j], open[i])
    {
      assert if j >= i then Apart(open[i], open[j + 1]) else Apart(open[j], open[i]);
    }
    forall j, k | 0 <= j < k < |rest|
      ensures Apart(rest[j], rest[k])
    {
      assert Apart(open[if j < i then j else j + 1], open[if k < i then k else k + 1]);
    }
  }

  lemma WithoutHolds(open: seq<Incident>, i: nat, next: nat)
    requires Distinct(open) && AreOpen(open, next) && i < |open|
    ensures forall serial :: Holds(Without(open, i), serial) <==> Holds(open, serial) && serial != open[i].serial
  {
    WithoutIsApart(open, i, next);
    var rest := Without(open, i);
    forall k | 0 <= k < |open| && k != i
      ensures Holds(rest, open[k].serial)
    {
      assert rest[if k < i then k else k - 1] == open[k];
    }
    forall j | 0 <= j < |rest|
      ensures Holds(open, rest[j].serial)
    {
      assert open[if j < i then j else j + 1] == rest[j];
    }
  }

  /** A close takes one incident out of memory, tries to append it, and never touches another. */
  lemma CloseIsSound(b: Books, pipeline: string, kind: IncidentKind, now: nat, append: Outcome, saveOk: bool, next: nat)
    requires SoundBooks(b, next)
    ensures var (after, ok) := b.Close(pipeline, kind, now, append, saveOk);
            && SoundBooks(after, next) && SoundBooks(after, next + 1)
            && (forall i :: 0 <= i < |after.open| ==> !after.open[i].Is(pipeline, kind))
            && (forall x :: x in after.open ==> x in b.open)
            && (b.file == b.open && ok ==> after.file == after.open)
            && after.file == (if CloseSaves(b, pipeline, kind, append, saveOk) then after.open else b.file)
            && b.log <= after.log
  {
    var p := Position(b.open, pipeline, kind);
    if p.Some? {
      WithoutIsApart(b.open, p.value, next);
    }
  }

  /** Whether a close writes the open file. */
  predicate CloseSaves(b: Books, pipeline: string, kind: IncidentKind, append: Outcome, saveOk: bool) {
    Position(b.open, pipeline, kind).Some? && append == Written && saveOk
  }

  /** Where a close leaves each incident. */
  lemma CloseHolds(b: Books, pipeline: string, kind: IncidentKind, now: nat, append: Outcome, saveOk: bool, next: nat,
                   serial: nat)
    requires SoundBooks(b, next)
    ensures var after := b.Close(pipeline, kind, now, append, saveOk).0;
            var closes := Closing(b, pipeline, kind) == Some(serial);
            && (Holds(after.open, serial) <==> Holds(b.open, serial) && !closes)
            && (closes ==> |after.log| == |b.log| + 1 && IsTry(after.log, |b.log|, serial, append))
  {
    var p := Position(b.open, pipeline, kind);
    if p.Some? {
      WithoutHolds(b.open, p.value, next);
      assert Holds(b.open, b.open[p.value].serial);
    }
  }

  /** Entry i of the log is an append of this incident, and got so far. */
  predicate IsTry(log: Log, i: int, serial: nat, append: Outcome) {
    0 <= i < |log| && log[i].record.serial == serial && log[i].outcome == append
  }

  /** The incident a close finds. */
  function Closing(b: Books, pipeline: string, kind: IncidentKind): Option<nat> {
    var found := Get(b.open, pipeline, kind);
    if found.Some? then Some(found.value.serial) else None
  }

  /** While memory and file agree, a close takes an incident from the file only after its append succeeded. */
  lemma CloseKeeps(b: Books, pipeline: string, kind: IncidentKind, now: nat, append: Outcome, saveOk: bool, next: nat,
                   serial: nat)
    requires SoundBooks(b, next) && b.file == b.open && Holds(b.file, serial)
    ensures var after := b.Close(pipeline, kind, now, append, saveOk).0;
            !Holds(after.file, serial)
            <==> Closing(b, pipeline, kind) == Some(serial) && append == Written && saveOk
  {
    CloseIsSound(b, pipeline, kind, now, append, saveOk, next);
    CloseHolds(b, pipeline, kind, now, append, saveOk, next, serial);
  }

  /** No open incident is of one of the keys. */
  ghost predicate Closed(open: seq<Incident>, keys: seq<(string, IncidentKind)>) {
    forall i, k :: 0 <= i < |open| && 0 <= k < |keys| ==> !open[i].Is(keys[k].0, keys[k].1)
  }

  lemma StayClosed(before: seq<Incident>, after: seq<Incident>, keys: seq<(string, IncidentKind)>, n: nat)
    requires |keys| == n + 1 && Closed(before, keys[..n]) && Closed(after, [keys[n]])
    requires forall x :: x in after ==> x in before
    ensures Closed(after, keys)
  {
    forall i, k | 0 <= i < |after| && 0 <= k < |keys|
      ensures !after[i].Is(keys[k].0, keys[k].1)
    {
      if k < n {
        assert after[i] in before;
        assert keys[k] == keys[..n][k];
      } else {
        assert keys[k] == [keys[n]][0];
      }
    }
  }

  lemma {:induction false} CloseEachIsSound(b: Books, keys: seq<(string, IncidentKind)>, now: nat,
                                            disk: nat -> (Outcome, bool), next: nat)
    requires SoundBooks(b, next) && b.file == b.open
    ensures var (after, ok) := b.CloseEach(keys, now, disk);
            && SoundBooks(after, next)
            && (ok ==> after.file == after.open && Closed(after.open, keys))
            && (forall x :: x in after.open ==> x in b.open)
            && b.log <= after.log
  {
    if keys != [] {
      var n := |keys| - 1;
      CloseEachIsSound(b, keys[..n], now, disk, next);
      var (before, ok) := b.CloseEach(keys[..n], now, disk);
      if ok {
        CloseIsSound(before, keys[n].0, keys[n].1, now, disk(n).0, disk(n).1, next);
        var (after, done) := b.CloseEach(keys, now, disk);
        if done {
          StayClosed(before.open, after.open, keys, n);
        }
      }
    }
  }

  /** After the unconfigured pipelines' incidents are closed, every open incident belongs to a configured pipeline. */
  lemma UnconfiguredAreClosed(b: Books, pipelines: set<string>, now: nat, disk: nat -> (Outcome, bool), next: nat)
    requires SoundBooks(b, next) && b.file == b.open
    ensures var (after, ok) := b.CloseUnconfigured(pipelines, now, disk);
            ok ==> forall i :: 0 <= i < |after.open| ==> after.open[i].pipeline in pipelines
  {
    var keys := Unconfigured(b.open, pipelines);
    CloseEachIsSound(b, keys, now, disk, next);
    var (after, ok) := b.CloseUnconfigured(pipelines, now, disk);
    if ok {
      forall i | 0 <= i < |after.open|
        ensures after.open[i].pipeline in pipelines
      {
        var x := after.open[i];
        assert x in b.open;
        assert x.pipeline !in pipelines ==> (x.pipeline, x.cause.Kind()) in keys;
      }
    }
  }

  // ----- every step -----

  /** An open incident is replaced only by its own continuation: the one found keeps its serial and its key, and a new
      one has a serial and a key of its own. */
  lemma FoundIsReplaced(open: seq<Incident>, incident: Incident, next: nat)
    requires Distinct(open) && AreOpen(open, next)
    requires var found := Get(open, incident.pipeline, incident.cause.Kind());
             if found.Some? then incident.serial == found.value.serial else incident.serial == next
    ensures Replaces(open, incident)
  {
    var p := Position(open, incident.pipeline, incident.cause.Kind());
    forall i | 0 <= i < |open|
      ensures open[i].serial == incident.serial <==> open[i].Is(incident.pipeline, incident.cause.Kind())
    {
      if p.Some? && i != p.value {
        assert if i < p.value then Apart(open[i], open[p.value]) else Apart(open[p.value], open[i]);
      }
    }
  }

  /** The incident a put writes in a step, if the step puts one. */
  function PutBy(s: Store, a: Action): Option<Incident> {
    match a
    case RecordFailure(_, _, _, _, _, _, _, _, _) => FailurePut(s, a)
    case JudgeSample(_, tier, _, sample, _, _, _) =>
      var finding := Judge(tier, sample).0;
      if finding.None? then None
      else
        var found := Get(s.books.open, a.pipeline, SampleKind(sample));
        if found.None? then Some(Opening(s, a).(cause := finding.value))
        else if found.value.cause.Absorbs(finding.value)
        then Some(found.value.(cause := found.value.cause.Absorb(finding.value)))
        else None
    case _ => None
  }

  /** A finding always folds into the open incident it extends: no writer reaches the unreachable pair. */
  lemma FindingsFold(s: Store, a: Action)
    requires a.JudgeSample?
    ensures var found, finding := Get(s.books.open, a.pipeline, SampleKind(a.sample)), Judge(a.tier, a.sample).0;
            found.Some? && finding.Some? ==> found.value.cause.Absorbs(finding.value)
  {
    var found, finding := Get(s.books.open, a.pipeline, SampleKind(a.sample)), Judge(a.tier, a.sample).0;
    if found.Some? && finding.Some? {
      TrackedKindsFold(found.value.cause, finding.value);
    }
  }

  /** What a writer does to the store: puts an incident, closes the one of a kind, or leaves it alone. */
  datatype Deed = Puts(incident: Incident) | Closes(kind: IncidentKind, now: nat) | Rests

  predicate IsWrite(a: Action) {
    !a.Start? && !a.Crash?
  }

  function DeedOf(s: Store, a: Action): Deed
    requires IsWrite(a)
  {
    if PutBy(s, a).Some? then Puts(PutBy(s, a).value)
    else
      match a
      case FramesFlow(_, now, _, _) => Closes(KindDown, now)
      case Recovered(_, windowEnd, _, _) => Closes(KindNoRecovery, windowEnd)
      case JudgeSample(_, tier, _, sample, now, _, _) =>
        if Judge(tier, sample).1 then Closes(SampleKind(sample), now) else Rests
      case _ => Rests
  }

  /** How far the append of a step's close gets. Recording a failure closes nothing. */
  function AppendOf(a: Action): Outcome
    requires IsWrite(a)
  {
    if a.RecordFailure? then Written else a.append
  }

  function Done(b: Books, a: Action, deed: Deed): (Books, bool)
    requires IsWrite(a)
  {
    match deed
    case Puts(incident) => b.Put(incident, a.saveOk)
    case Closes(kind, now) => b.Close(a.pipeline, kind, now, AppendOf(a), a.saveOk)
    case Rests => (b, true)
  }

  lemma WorkIsDone(s: Store, a: Action)
    requires IsWrite(a)
    ensures Work(s, a) == Done(s.books, a, DeedOf(s, a))
  {
    if a.JudgeSample? {
      FindingsFold(s, a);
      SampleIsTracked(s, a);
    }
  }

  lemma SampleIsTracked(s: Store, a: Action)
    requires a.JudgeSample?
    requires var found, finding := Get(s.books.open, a.pipeline, SampleKind(a.sample)), Judge(a.tier, a.sample).0;
             found.Some? && finding.Some? ==> found.value.cause.Absorbs(finding.value)
    ensures var (finding, clean) := Judge(a.tier, a.sample);
            s.books.Track(Opening(s, a), finding, clean, a.now, a.append, a.saveOk) == Done(s.books, a, DeedOf(s, a))
  {
  }

  /** No put discards another incident: what it replaces has the serial of what it writes. */
  lemma PutsReplaceThemselves(s: Store, a: Action)
    requires Sound(s) && Enabled(s, a)
    ensures var put := PutBy(s, a);
            put.Some? ==>
              && Replaces(s.books.open, put.value)
              && put.value.end.None?
              && put.value.pipeline == a.pipeline
              && (put.value.serial == s.next || (put.value.serial < s.next && Holds(s.books.open, put.value.serial)))
  {
    var put := PutBy(s, a);
    if put.Some? {
      var p := Position(s.books.open, put.value.pipeline, put.value.cause.Kind());
      if p.Some? {
        assert s.books.open[p.value].serial == put.value.serial && s.books.open[p.value].end.None?;
      }
      FoundIsReplaced(s.books.open, put.value, s.next);
    }
  }

  lemma StayConfigured(before: seq<Incident>, after: seq<Incident>, configured: set<string>)
    requires AreConfigured(before, configured)
    requires forall x :: x in after ==> x in before || x.pipeline in configured
    ensures AreConfigured(after, configured)
  {
    forall i | 0 <= i < |after|
      ensures after[i].pipeline in configured
    {
      assert after[i] in after;
    }
  }

  /** Memory, log and file after a writer's step. */
  lemma WriteIsSound(s: Store, a: Action)
    requires Sound(s) && Enabled(s, a) && IsWrite(a)
    ensures var (after, ok) := Work(s, a);
            && SoundBooks(after, s.next + 1)
            && AreConfigured(after.open, s.configured)
            && (s.books.file == s.books.open && ok ==> after.file == after.open)
            && after.file == (if Saves(s, a) then after.open else s.books.file)
  {
    WorkIsDone(s, a);
    var after := Work(s, a).0;
    match DeedOf(s, a)
    case Puts(incident) =>
      PutsReplaceThemselves(s, a);
      PutIsSound(s.books, incident, a.saveOk, s.next);
      StayConfigured(s.books.open, after.open, s.configured);
    case Closes(kind, now) =>
      CloseIsSound(s.books, a.pipeline, kind, now, AppendOf(a), a.saveOk, s.next);
      StayConfigured(s.books.open, after.open, s.configured);
    case Rests =>
  }

  /** Whether a writer's step writes the open file. */
  predicate Saves(s: Store, a: Action)
    requires IsWrite(a)
  {
    match DeedOf(s, a)
    case Puts(_) => a.saveOk
    case Closes(kind, _) => CloseSaves(s.books, a.pipeline, kind, AppendOf(a), a.saveOk)
    case Rests => false
  }

  predicate ClosesIt(s: Store, a: Action, serial: nat)
    requires IsWrite(a)
  {
    var deed := DeedOf(s, a);
    deed.Closes? && Closing(s.books, a.pipeline, deed.kind) == Some(serial)
  }

  predicate PutsIt(s: Store, a: Action, serial: nat)
    requires IsWrite(a)
  {
    var deed := DeedOf(s, a);
    deed.Puts? && deed.incident.serial == serial
  }

  /** Where a writer's step leaves each incident. */
  lemma WriteHolds(s: Store, a: Action, serial: nat)
    requires Sound(s) && Enabled(s, a) && IsWrite(a)
    ensures var after := Work(s, a).0;
            && (Holds(after.open, serial)
                <==> (Holds(s.books.open, serial) && !ClosesIt(s, a, serial)) || PutsIt(s, a, serial))
            && s.books.log <= after.log
            && (ClosesIt(s, a, serial) ==> IsTry(after.log, |s.books.log|, serial, AppendOf(a)))
  {
    WorkIsDone(s, a);
    match DeedOf(s, a)
    case Puts(incident) =>
      PutsReplaceThemselves(s, a);
      PutIsSound(s.books, incident, a.saveOk, s.next);
    case Closes(kind, now) =>
      CloseIsSound(s.books, a.pipeline, kind, now, AppendOf(a), a.saveOk, s.next);
      CloseHolds(s.books, a.pipeline, kind, now, AppendOf(a), a.saveOk, s.next, serial);
    case Rests =>
  }

  lemma StepIsSound(s: Store, a: Action)
    requires Sound(s) && Enabled(s, a)
    ensures Sound(Step(s, a))
  {
    if a.Start? {
      var b := s.books.(open := s.books.file);
      CloseEachIsSound(b, Unconfigured(b.open, a.pipelines), a.now, a.disk, s.next);
      UnconfiguredAreClosed(b, a.pipelines, a.now, a.disk, s.next);
      SerialsStayBelow(Work(s, a).0, s.next);
    } else if !a.Crash? {
      WriteIsSound(s, a);
    }
  }

  lemma SerialsStayBelow(b: Books, next: nat)
    requires SoundBooks(b, next)
    ensures SoundBooks(b, next + 1)
  {
  }

  // ----- how often a close is logged -----

  /** A closed incident is appended once, and once more at most for each time the process stopped, however far each append
      gets. One that is open in memory has not been appended since the process started. */
  ghost predicate LogsOnce(s: Store) {
    forall serial ::
      Tries(s.books.log, serial) <= s.crashes + if s.phase == Down || Holds(s.books.open, serial) then 0 else 1
  }

  ghost predicate LoggedAtMost(b: Books, crashes: nat) {
    forall serial :: Tries(b.log, serial) <= crashes + if Holds(b.open, serial) then 0 else 1
  }

  lemma CloseLogsOnce(b: Books, pipeline: string, kind: IncidentKind, now: nat, append: Outcome, saveOk: bool,
                      next: nat, crashes: nat)
    requires SoundBooks(b, next) && LoggedAtMost(b, crashes)
    ensures LoggedAtMost(b.Close(pipeline, kind, now, append, saveOk).0, crashes)
  {
    var p := Position(b.open, pipeline, kind);
    if p.Some? {
      var after, closed := b.Close(pipeline, kind, now, append, saveOk).0, b.open[p.value];
      WithoutHolds(b.open, p.value, next);
      assert Holds(b.open, closed.serial);
      assert after.log[..|b.log|] == b.log;
      forall serial
        ensures Tries(after.log, serial) == Tries(b.log, serial) + if serial == closed.serial then 1 else 0
      {
      }
    }
  }

  lemma {:induction false} CloseEachLogsOnce(b: Books, keys: seq<(string, IncidentKind)>, now: nat,
                                             disk: nat -> (Outcome, bool), next: nat, crashes: nat)
    requires SoundBooks(b, next) && b.file == b.open && LoggedAtMost(b, crashes)
    ensures LoggedAtMost(b.CloseEach(keys, now, disk).0, crashes)
  {
    if keys != [] {
      var n := |keys| - 1;
      CloseEachLogsOnce(b, keys[..n], now, disk, next, crashes);
      CloseEachIsSound(b, keys[..n], now, disk, next);
      var (before, ok) := b.CloseEach(keys[..n], now, disk);
      if ok {
        CloseLogsOnce(before, keys[n].0, keys[n].1, now, disk(n).0, disk(n).1, next, crashes);
      }
    }
  }

  lemma {:induction false} NeverLogged(log: Log, next: nat, serial: nat)
    requires AreClosed(log, next) && serial >= next
    ensures Tries(log, serial) == 0
  {
    if log != [] {
      NeverLogged(log[..|log| - 1], next, serial);
    }
  }

  lemma PutLogsNothing(b: Books, incident: Incident, saveOk: bool, next: nat, crashes: nat)
    requires SoundBooks(b, next) && Replaces(b.open, incident) && LoggedAtMost(b, crashes) && incident.end.None?
    requires incident.serial == next || (incident.serial < next && Holds(b.open, incident.serial))
    ensures LoggedAtMost(b.Put(incident, saveOk).0, crashes)
  {
    PutIsSound(b, incident, saveOk, next);
    NeverLogged(b.log, next, next);
  }

  lemma StepLogsOnce(s: Store, a: Action)
    requires Sound(s) && Enabled(s, a) && LogsOnce(s)
    ensures LogsOnce(Step(s, a))
  {
    if a.Start? {
      var b := s.books.(open := s.books.file);
      CloseEachLogsOnce(b, Unconfigured(b.open, a.pipelines), a.now, a.disk, s.next, s.crashes);
    } else if !a.Crash? {
      WriteLogsOnce(s, a);
    }
  }

  lemma WriteLogsOnce(s: Store, a: Action)
    requires Sound(s) && Enabled(s, a) && IsWrite(a) && LoggedAtMost(s.books, s.crashes)
    ensures LoggedAtMost(Work(s, a).0, s.crashes)
  {
    WorkIsDone(s, a);
    match DeedOf(s, a)
    case Puts(incident) =>
      PutsReplaceThemselves(s, a);
      PutLogsNothing(s.books, incident, a.saveOk, s.next, s.crashes);
    case Closes(kind, now) =>
      CloseLogsOnce(s.books, a.pipeline, kind, now, AppendOf(a), a.saveOk, s.next, s.crashes);
    case Rests =>
  }

  // ----- what becomes of an incident in the open file -----

  /** The file has it, and so has whatever could write over the file. */
  predicate IsFiled(s: Store, serial: nat) {
    Holds(s.books.file, serial) && (s.running == {} || Holds(s.books.open, serial))
  }

  /** The file still has it, and the next save writes over that. */
  predicate IsOrphan(s: Store, serial: nat) {
    Holds(s.books.file, serial) && !Holds(s.books.open, serial) && s.phase != Down
  }

  /** An incident that was open once is not any more. */
  predicate IsOff(s: Store, serial: nat) {
    serial < s.next && !Holds(s.books.file, serial) && !Holds(s.books.open, serial)
  }

  lemma SerialsAreUsed(s: Store, serial: nat)
    requires SoundBooks(s.books, s.next)
    ensures Holds(s.books.open, serial) || Holds(s.books.file, serial) ==> serial < s.next
  {
  }

  lemma PutsWhatIsOpen(s: Store, a: Action, serial: nat)
    requires Sound(s) && Enabled(s, a) && IsWrite(a) && serial < s.next && PutsIt(s, a, serial)
    ensures Holds(s.books.open, serial)
  {
    PutsReplaceThemselves(s, a);
  }

  lemma ClosesWhatIsOpen(s: Store, a: Action, serial: nat)
    requires IsWrite(a) && ClosesIt(s, a, serial)
    ensures Holds(s.books.open, serial)
  {
    ClosingIsOpen(s.books, a.pipeline, DeedOf(s, a).kind, serial);
  }

  lemma ClosingIsOpen(b: Books, pipeline: string, kind: IncidentKind, serial: nat)
    requires Closing(b, pipeline, kind) == Some(serial)
    ensures Holds(b.open, serial)
  {
    var p := Position(b.open, pipeline, kind);
    assert b.open[p.value].serial == serial;
  }

  /** Of the closes at a start, the k-th takes it off the file: those before succeed, and so do both its disk steps. */
  predicate TakesOffAt(b: Books, keys: seq<(string, IncidentKind)>, now: nat, disk: nat -> (Outcome, bool), serial: nat,
                       k: nat)
    requires k < |keys|
  {
    var (before, ok) := b.CloseEach(keys[..k], now, disk);
    ok && Closing(before, keys[k].0, keys[k].1) == Some(serial) && disk(k) == (Written, true)
  }

  predicate SomeTakesOff(b: Books, keys: seq<(string, IncidentKind)>, now: nat, disk: nat -> (Outcome, bool),
                         serial: nat) {
    exists k :: 0 <= k < |keys| && TakesOffAt(b, keys, now, disk, serial, k)
  }

  lemma SomeOneMore(b: Books, keys: seq<(string, IncidentKind)>, now: nat, disk: nat -> (Outcome, bool), serial: nat)
    requires keys != []
    ensures var n := |keys| - 1;
            SomeTakesOff(b, keys, now, disk, serial)
            <==> SomeTakesOff(b, keys[..n], now, disk, serial) || TakesOffAt(b, keys, now, disk, serial, n)
  {
    var n := |keys| - 1;
    forall k | 0 <= k < n
      ensures TakesOffAt(b, keys, now, disk, serial, k) == TakesOffAt(b, keys[..n], now, disk, serial, k)
    {
      assert keys[..n][..k] == keys[..k];
    }
    if SomeTakesOff(b, keys[..n], now, disk, serial) {
      var k :| 0 <= k < n && TakesOffAt(b, keys[..n], now, disk, serial, k);
      assert TakesOffAt(b, keys, now, disk, serial, k);
    }
  }

  lemma {:induction false} CloseEachHolds(b: Books, keys: seq<(string, IncidentKind)>, now: nat,
                                          disk: nat -> (Outcome, bool), next: nat, serial: nat)
    requires SoundBooks(b, next) && b.file == b.open
    ensures var after := b.CloseEach(keys, now, disk).0;
            && (Holds(after.file, serial) <==> Holds(b.file, serial) && !SomeTakesOff(b, keys, now, disk, serial))
            && (Holds(after.open, serial) ==> Holds(after.file, serial))
            && (SomeTakesOff(b, keys, now, disk, serial) ==> WasTried(after.log, serial))
  {
    if keys != [] {
      var n := |keys| - 1;
      CloseEachHolds(b, keys[..n], now, disk, next, serial);
      CloseEachIsSound(b, keys[..n], now, disk, next);
      SomeOneMore(b, keys, now, disk, serial);
      var (before, ok) := b.CloseEach(keys[..n], now, disk);
      if ok {
        CloseOneMore(before, keys[n].0, keys[n].1, now, disk(n).0, disk(n).1, next, serial);
      }
    }
  }

  lemma CloseOneMore(b: Books, pipeline: string, kind: IncidentKind, now: nat, append: Outcome, saveOk: bool, next: nat,
                     serial: nat)
    requires SoundBooks(b, next) && b.file == b.open
    ensures var after := b.Close(pipeline, kind, now, append, saveOk).0;
            var takesOff := Closing(b, pipeline, kind) == Some(serial) && (append, saveOk) == (Written, true);
            && (Holds(after.file, serial) <==> Holds(b.file, serial) && !takesOff)
            && (Holds(after.open, serial) ==> Holds(after.file, serial))
            && (WasTried(b.log, serial) || takesOff ==> WasTried(after.log, serial))
  {
    var after := b.Close(pipeline, kind, now, append, saveOk).0;
    CloseIsSound(b, pipeline, kind, now, append, saveOk, next);
    CloseHolds(b, pipeline, kind, now, append, saveOk, next, serial);
    TriesStay(b.log, after.log, serial);
    if Holds(b.file, serial) {
      CloseKeeps(b, pipeline, kind, now, append, saveOk, next, serial);
    }
  }

  /** It was tried to append it. */
  predicate WasTried(log: Log, serial: nat) {
    exists i :: 0 <= i < |log| && IsTry(log, i, serial, log[i].outcome)
  }

  lemma TriesStay(log: Log, more: Log, serial: nat)
    requires log <= more
    ensures WasTried(log, serial) ==> WasTried(more, serial)
  {
    if i :| 0 <= i < |log| && IsTry(log, i, serial, log[i].outcome) {
      assert IsTry(more, i, serial, more[i].outcome);
    }
  }

  predicate StartTakesOff(s: Store, a: Action, serial: nat)
    requires a.Start?
  {
    SomeTakesOff(s.books.(open := s.books.file), Unconfigured(s.books.file, a.pipelines), a.now, a.disk, serial)
  }

  /** Its own close takes it off the file. */
  predicate TakesOff(s: Store, a: Action, serial: nat) {
    if a.Start? then StartTakesOff(s, a, serial) else IsWrite(a) && ClosesIt(s, a, serial) && Saves(s, a)
  }

  lemma FiledStep(s: Store, a: Action, serial: nat)
    requires Sound(s) && Enabled(s, a) && IsFiled(s, serial)
    ensures var t := Step(s, a);
            if TakesOff(s, a, serial) then IsOff(t, serial)
            else if IsWrite(a) && ClosesIt(s, a, serial) then IsOrphan(t, serial)
            else IsFiled(t, serial)
  {
    SerialsAreUsed(s, serial);
    if a.Start? {
      StartStep(s, a, serial);
    } else if !a.Crash? {
      WriteIsSound(s, a);
      WriteHolds(s, a, serial);
      if PutsIt(s, a, serial) {
        PutsWhatIsOpen(s, a, serial);
      }
    }
  }

  lemma StartStep(s: Store, a: Action, serial: nat)
    requires Sound(s) && Enabled(s, a) && a.Start?
    ensures var t := Step(s, a);
            && (Holds(t.books.file, serial) <==> Holds(s.books.file, serial) && !StartTakesOff(s, a, serial))
            && (Holds(t.books.open, serial) ==> Holds(t.books.file, serial))
            && (t.running == {} || t.books.file == t.books.open)
            && (StartTakesOff(s, a, serial) ==> WasTried(t.books.log, serial))
            && s.books.log <= t.books.log
  {
    var b := s.books.(open := s.books.file);
    CloseEachHolds(b, Unconfigured(b.open, a.pipelines), a.now, a.disk, s.next, serial);
    CloseEachIsSound(b, Unconfigured(b.open, a.pipelines), a.now, a.disk, s.next);
  }

  lemma OrphanStep(s: Store, a: Action, serial: nat)
    requires Sound(s) && Enabled(s, a) && IsOrphan(s, serial)
    ensures var t := Step(s, a);
            if a.Crash? then IsFiled(t, serial)
            else IsWrite(a) && !ClosesIt(s, a, serial) && if Saves(s, a) then IsOff(t, serial) else IsOrphan(t, serial)
  {
    SerialsAreUsed(s, serial);
    if !a.Crash? {
      WriteIsSound(s, a);
      WriteHolds(s, a, serial);
      if PutsIt(s, a, serial) {
        PutsWhatIsOpen(s, a, serial);
      }
      if ClosesIt(s, a, serial) {
        ClosesWhatIsOpen(s, a, serial);
      }
    }
  }

  lemma OffStep(s: Store, a: Action, serial: nat)
    requires Sound(s) && Enabled(s, a) && IsOff(s, serial)
    ensures IsOff(Step(s, a), serial)
  {
    if a.Start? {
      StartStep(s, a, serial);
    } else if !a.Crash? {
      WriteIsSound(s, a);
      WriteHolds(s, a, serial);
      if PutsIt(s, a, serial) {
        PutsWhatIsOpen(s, a, serial);
      }
    }
  }

  // ----- every run -----

  predicate Possible(s: Store, actions: seq<Action>)
    decreases |actions|
  {
    actions == [] || (Enabled(s, actions[0]) && Possible(Step(s, actions[0]), actions[1..]))
  }

  function Run(s: Store, actions: seq<Action>): Store
    decreases |actions|
  {
    if actions == [] then s else Run(Step(s, actions[0]), actions[1..])
  }

  const FIRST_STORE := Store(Books([], [], []), Down, 0, 0, {}, {})

  lemma FirstStoreIsSound()
    ensures Sound(FIRST_STORE) && LogsOnce(FIRST_STORE)
  {
  }

  /** Over every run, with disk errors and crashes anywhere and writers that go on after them: at most one incident is
      open for a pipeline and kind, and a close is logged at most once more than the process stopped. */
  lemma {:induction false} RunIsSound(s: Store, actions: seq<Action>)
    requires Sound(s) && LogsOnce(s) && Possible(s, actions)
    ensures Sound(Run(s, actions)) && LogsOnce(Run(s, actions))
    decreases |actions|
  {
    if actions != [] {
      StepIsSound(s, actions[0]);
      StepLogsOnce(s, actions[0]);
      RunIsSound(Step(s, actions[0]), actions[1..]);
    }
  }

  /** A writer saves the store before the process stops. */
  predicate SavedBeforeTheCrash(s: Store, actions: seq<Action>)
    decreases |actions|
  {
    && actions != []
    && IsWrite(actions[0])
    && (Saves(s, actions[0]) || SavedBeforeTheCrash(Step(s, actions[0]), actions[1..]))
  }

  /** At some step a close takes the incident off the list, and the store is saved: by that close, or by any writer after
      it and before the process stops. */
  predicate LeavesTheFile(s: Store, actions: seq<Action>, serial: nat)
    decreases |actions|
  {
    && actions != []
    && var a, next := actions[0], Step(s, actions[0]);
       || TakesOff(s, a, serial)
       || (IsWrite(a) && ClosesIt(s, a, serial) && SavedBeforeTheCrash(next, actions[1..]))
       || LeavesTheFile(next, actions[1..], serial)
  }

  /** That is exactly when the file has it no more. */
  lemma {:induction false} OffTheFileExactlyWhen(s: Store, actions: seq<Action>, serial: nat)
    requires Sound(s) && Possible(s, actions) && IsFiled(s, serial)
    ensures !Holds(Run(s, actions).books.file, serial) <==> LeavesTheFile(s, actions, serial)
    decreases |actions|
  {
    if actions != [] {
      var a, t := actions[0], Step(s, actions[0]);
      StepIsSound(s, a);
      FiledStep(s, a, serial);
      if TakesOff(s, a, serial) {
        OffForGood(t, actions[1..], serial);
      } else if IsWrite(a) && ClosesIt(s, a, serial) {
        OrphanIsOffExactlyWhen(t, actions[1..], serial);
      } else {
        OffTheFileExactlyWhen(t, actions[1..], serial);
      }
    }
  }

  lemma {:induction false} OrphanIsOffExactlyWhen(s: Store, actions: seq<Action>, serial: nat)
    requires Sound(s) && Possible(s, actions) && IsOrphan(s, serial)
    ensures !Holds(Run(s, actions).books.file, serial)
            <==> SavedBeforeTheCrash(s, actions) || LeavesTheFile(s, actions, serial)
    decreases |actions|
  {
    if actions != [] {
      var a, t := actions[0], Step(s, actions[0]);
      StepIsSound(s, a);
      OrphanStep(s, a, serial);
      if a.Crash? {
        OffTheFileExactlyWhen(t, actions[1..], serial);
      } else if Saves(s, a) {
        OffForGood(t, actions[1..], serial);
      } else {
        OrphanIsOffExactlyWhen(t, actions[1..], serial);
      }
    }
  }

  lemma {:induction false} OffForGood(s: Store, actions: seq<Action>, serial: nat)
    requires Sound(s) && Possible(s, actions) && IsOff(s, serial)
    ensures !Holds(Run(s, actions).books.file, serial)
    decreases |actions|
  {
    if actions != [] {
      StepIsSound(s, actions[0]);
      OffStep(s, actions[0], serial);
      OffForGood(Step(s, actions[0]), actions[1..], serial);
    }
  }

  /** When an incident comes into the file it is filed: so the condition counts from then on. */
  lemma FirstInTheFileIsFiled(s: Store, a: Action, serial: nat)
    requires Sound(s) && Enabled(s, a) && !Holds(s.books.file, serial) && Holds(Step(s, a).books.file, serial)
    ensures IsFiled(Step(s, a), serial) && Holds(Step(s, a).books.open, serial)
  {
    if a.Start? {
      StartStep(s, a, serial);
    } else {
      WriteIsSound(s, a);
    }
  }

  // ----- what can be read -----

  /** What a day's file of the log gives. */
  function IncidentsOf(log: Log, day: nat): Option<seq<Incident>> {
    DayRead(FilesAfter(ByDate(), log), ByDate(), _ => true, INCIDENTS_PREFIX, day)
  }

  predicate IsInTheDaysFile(log: Log, day: nat, serial: nat) {
    IncidentsOf(log, day).Some? && Holds(IncidentsOf(log, day).value, serial)
  }

  /** The log gives the incident back, on some day. */
  ghost predicate IsInTheLog(log: Log, serial: nat) {
    exists day: nat :: IsInTheDaysFile(log, day, serial)
  }

  /** The open file or the log has it, for whoever reads them. */
  ghost predicate CanBeRead(b: Books, serial: nat) {
    Holds(b.file, serial) || IsInTheLog(b.log, serial)
  }

  /** The k-th append of a day can be read and is one of this incident. */
  ghost predicate ReadsBackAt(log: Log, day: nat, k: int, serial: nat) {
    var entries := OfDay(log, INCIDENTS_PREFIX, day);
    IsReadable(entries, k) && entries[k].record.serial == serial
  }

  ghost predicate ReadsBack(log: Log, serial: nat) {
    exists day: nat :: DayReadsBackIt(log, day, serial)
  }

  ghost predicate DayReadsBackIt(log: Log, day: nat, serial: nat) {
    exists k :: ReadsBackAt(log, day, k, serial)
  }

  ghost predicate AreIncidents(log: Log) {
    forall i :: 0 <= i < |log| ==> log[i].prefix == INCIDENTS_PREFIX
  }

  /** The log gives it back if and only if one of its appends can be read. */
  lemma {:induction false} LogGivesBackIff(log: Log, serial: nat)
    requires AreIncidents(log)
    ensures IsInTheLog(log, serial) <==> ReadsBack(log, serial)
  {
    DatesNameTheFiles();
    forall day: nat
      ensures IsInTheDaysFile(log, day, serial) <==> DayReadsBackIt(log, day, serial)
    {
      DayGivesBackIff(log, day, serial);
    }
  }

  lemma DayGivesBackIff(log: Log, day: nat, serial: nat)
    requires AreIncidents(log) && OneFileEach(ByDate())
    ensures IsInTheDaysFile(log, day, serial) <==> DayReadsBackIt(log, day, serial)
  {
    DayIsRead(ByDate(), _ => true, log, INCIDENTS_PREFIX, day);
    FileGivesBackIff(log, day, serial);
  }

  lemma {:induction false} FileGivesBackIff(log: Log, day: nat, serial: nat)
    ensures var read := FileRead(FileAfter(OfDay(log, INCIDENTS_PREFIX, day)));
            read.Some? && Holds(read.value, serial) <==> DayReadsBackIt(log, day, serial)
  {
    var entries := OfDay(log, INCIDENTS_PREFIX, day);
    var read := FileRead(FileAfter(entries));
    if read.Some? && Holds(read.value, serial) {
      var i :| 0 <= i < |read.value| && read.value[i].serial == serial;
      GivesBackIff(entries, read.value[i]);
      var k :| IsReadable(entries, k) && entries[k].record == read.value[i];
      assert ReadsBackAt(log, day, k, serial);
    }
    if k :| ReadsBackAt(log, day, k, serial) {
      GivesBackIff(entries, entries[k].record);
      var i :| 0 <= i < |read.value| && read.value[i] == entries[k].record;
      assert read.value[i].serial == serial;
    }
  }

  /** An incident in the open file is lost at the end of a run if and only if it left the file and none of its appends can
      be read. */
  lemma {:induction false} LostExactlyWhen(s: Store, actions: seq<Action>, serial: nat)
    requires Sound(s) && LogsOnce(s) && Possible(s, actions) && IsFiled(s, serial)
    ensures var end := Run(s, actions);
            !CanBeRead(end.books, serial) <==> LeavesTheFile(s, actions, serial) && !ReadsBack(end.books.log, serial)
  {
    RunIsSound(s, actions);
    OffTheFileExactlyWhen(s, actions, serial);
    LogGivesBackIff(Run(s, actions).books.log, serial);
  }

  // ----- appends that are whole or fail -----

  ghost predicate IsLogged(log: Log, serial: nat) {
    exists i :: IsTry(log, i, serial, Written)
  }

  lemma {:induction false} WholeLogGivesBackIff(log: Log, serial: nat)
    requires AreIncidents(log) && AllOrNothing(log)
    ensures ReadsBack(log, serial) <==> IsLogged(log, serial)
  {
    if day: nat :| DayReadsBackIt(log, day, serial) {
      var k :| ReadsBackAt(log, day, k, serial);
      var e := OfDay(log, INCIDENTS_PREFIX, day)[k];
      OfDayHas(log, INCIDENTS_PREFIX, day, e);
      var i :| 0 <= i < |log| && log[i] == e;
      assert IsTry(log, i, serial, Written);
    }
    if i :| IsTry(log, i, serial, Written) {
      var day := log[i].ts / SECS_PER_DAY;
      var entries := OfDay(log, INCIDENTS_PREFIX, day);
      OfDayHas(log, INCIDENTS_PREFIX, day, log[i]);
      var k :| 0 <= k < |entries| && entries[k] == log[i];
      WholeIsReadable(log, day, k);
      assert ReadsBackAt(log, day, k, serial) && DayReadsBackIt(log, day, serial);
    }
  }

  lemma {:induction false} WholeIsReadable(log: Log, day: nat, k: nat)
    requires AllOrNothing(log)
    requires var entries := OfDay(log, INCIDENTS_PREFIX, day); k < |entries| && entries[k].outcome == Written
    ensures IsReadable(OfDay(log, INCIDENTS_PREFIX, day), k)
  {
    var entries := OfDay(log, INCIDENTS_PREFIX, day);
    forall j | 0 <= j < |entries|
      ensures entries[j].outcome == Written || entries[j].outcome == Nothing
    {
      OfDayHas(log, INCIDENTS_PREFIX, day, entries[j]);
    }
    AllOrNothingEndsClean(entries[..k]);
  }

  /** Where no append is cut off, an incident is lost if and only if it left the file although each of its appends had
      failed: so by another writer's save. */
  lemma {:induction false} WholeAppendsLoseIff(s: Store, actions: seq<Action>, serial: nat)
    requires Sound(s) && LogsOnce(s) && Possible(s, actions) && IsFiled(s, serial)
    requires AllOrNothing(Run(s, actions).books.log)
    ensures var end := Run(s, actions);
            !CanBeRead(end.books, serial) <==> LeavesTheFile(s, actions, serial) && !IsLogged(end.books.log, serial)
  {
    LostExactlyWhen(s, actions, serial);
    RunIsSound(s, actions);
    WholeLogGivesBackIff(Run(s, actions).books.log, serial);
  }

  /** What leaves the file was tried to append. */
  lemma {:induction false} LeavingIsTried(s: Store, actions: seq<Action>, serial: nat)
    requires Sound(s) && Possible(s, actions)
    ensures s.books.log <= Run(s, actions).books.log
    ensures LeavesTheFile(s, actions, serial) ==> WasTried(Run(s, actions).books.log, serial)
    decreases |actions|
  {
    if actions != [] {
      var a, t := actions[0], Step(s, actions[0]);
      StepIsSound(s, a);
      LeavingIsTried(t, actions[1..], serial);
      if a.Start? {
        StartStep(s, a, serial);
      } else if !a.Crash? {
        WriteHolds(s, a, serial);
        assert ClosesIt(s, a, serial) ==> IsTry(t.books.log, |s.books.log|, serial, AppendOf(a));
      }
      TriesStay(t.books.log, Run(s, actions).books.log, serial);
    }
  }

  /** Saves that fail lose nothing, whoever goes on writing: while every append is whole, every incident can be read. */
  lemma {:induction false} FailedSavesLoseNothing(s: Store, actions: seq<Action>, serial: nat)
    requires Sound(s) && LogsOnce(s) && Possible(s, actions) && IsFiled(s, serial)
    requires var log := Run(s, actions).books.log; forall i :: 0 <= i < |log| ==> log[i].outcome == Written
    ensures CanBeRead(Run(s, actions).books, serial)
  {
    WholeAppendsLoseIff(s, actions, serial);
    LeavingIsTried(s, actions, serial);
    var log := Run(s, actions).books.log;
    if i :| 0 <= i < |log| && IsTry(log, i, serial, log[i].outcome) {
      assert IsTry(log, i, serial, Written);
    }
  }

  // ----- runs that lose an incident -----

  function Goes(pipeline: string): Action {
    RecordFailure(pipeline, Public, pipeline, Exit(1), 0, false, None, "", true)
  }

  function Comes(now: nat, append: Outcome): Action {
    FramesFlow("p", now, append, true)
  }

  function Starts(now: nat): Action {
    Start({"p", "q"}, now, _ => (Written, true))
  }

  function DownIncident(serial: nat, pipeline: string): Incident {
    Incident(serial, pipeline, pipeline, Public, 0, None, Exit(1), 1, None, Some(""))
  }

  /** A store of two pipelines that runs with these books. */
  function TwoPipelines(books: Books, next: nat, crashes: nat): Store {
    Store(books, Serving, next, crashes, {"p", "q"}, Writers({"p", "q"}))
  }

  /** The first pipeline is down, and its incident saved. */
  function OneDown(log: Log, next: nat, crashes: nat): Store {
    TwoPipelines(Books([DownIncident(1, "p")], [DownIncident(1, "p")], log), next, crashes)
  }

  function CloseOfP(now: nat, append: Outcome): Entry<Incident> {
    ClosedEntry(DownIncident(1, "p"), now, append)
  }

  lemma OneGoesDown()
    ensures Possible(FIRST_STORE, [Starts(0), Goes("p")])
    ensures Run(FIRST_STORE, [Starts(0), Goes("p")]) == OneDown([], 2, 0)
  {
    var s := TwoPipelines(Books([], [], []), 1, 0);
    assert Step(FIRST_STORE, Starts(0)) == s;
    assert Supervisor("p") in Writers({"p", "q"});
    assert Step(s, Goes("p")) == OneDown([], 2, 0);
    assert [Starts(0), Goes("p")][1..] == [Goes("p")] && [Goes("p")][1..] == [];
  }

  /** After the close of the first is cut off the file still has it. */
  lemma AppendFails(append: Outcome)
    requires append != Written
    ensures var s := OneDown([], 2, 0);
            && Enabled(s, Comes(1, append))
            && ClosesIt(s, Comes(1, append), 1)
            && Step(s, Comes(1, append))
               == Store(Books([], [DownIncident(1, "p")], [CloseOfP(1, append)]), Failing, 3, 0, {"p", "q"},
                        Writers({"p", "q"}) - {Supervisor("p")})
  {
    assert Supervisor("p") in Writers({"p", "q"});
    assert OneDown([], 2, 0).books.open[0].Is("p", KindDown);
  }

  lemma {:induction false} RunInTwo(s: Store, before: seq<Action>, after: seq<Action>)
    ensures Possible(s, before + after) <==> Possible(s, before) && Possible(Run(s, before), after)
    ensures Run(s, before + after) == Run(Run(s, before), after)
    decreases |before|
  {
    if before == [] {
      assert before + after == after;
    } else {
      assert (before + after)[1..] == before[1..] + after;
      RunInTwo(Step(s, before[0]), before[1..], after);
    }
  }

  /** And then the second goes down and is saved. */
  lemma TheOtherSaves()
    ensures var s, actions := OneDown([], 2, 0), [Comes(1, Nothing), Goes("q")];
            && Possible(s, actions)
            && Run(s, actions).books.file == [DownIncident(3, "q")]
            && Run(s, actions).books.log == [CloseOfP(1, Nothing)]
  {
    var s, t := OneDown([], 2, 0), Step(OneDown([], 2, 0), Comes(1, Nothing));
    AppendFails(Nothing);
    assert Supervisor("q") in t.running;
    assert Step(t, Goes("q")).books.file == [DownIncident(3, "q")];
    assert [Comes(1, Nothing), Goes("q")][1..] == [Goes("q")] && [Goes("q")][1..] == [];
  }

  /** From an empty disk: a pipeline goes down and its incident is saved, its close cannot be logged, and before the
      process has ended the other pipeline goes down and is saved. */
  lemma AnIncidentGetsLost() returns (before: seq<Action>, after: seq<Action>)
    ensures Possible(FIRST_STORE, before + after)
    ensures CanBeRead(Run(FIRST_STORE, before).books, 1) && !CanBeRead(Run(FIRST_STORE, before + after).books, 1)
  {
    before, after := [Starts(0), Goes("p")], [Comes(1, Nothing), Goes("q")];
    OneGoesDown();
    TheOtherSaves();
    RunInTwo(FIRST_STORE, before, after);
    OneDownCanBeRead();
    FailedCloseCannotBeRead();
  }

  lemma OneDownCanBeRead()
    ensures CanBeRead(OneDown([], 2, 0).books, 1)
  {
    assert OneDown([], 2, 0).books.file[0].serial == 1;
  }

  lemma FailedCloseCannotBeRead()
    ensures !IsInTheLog([CloseOfP(1, Nothing)], 1)
  {
    LogGivesBackIff([CloseOfP(1, Nothing)], 1);
    WholeLogGivesBackIff([CloseOfP(1, Nothing)], 1);
  }

  /** The close is cut off midway, and repeated after the process was started again. */
  lemma CloseIsRepeated()
    ensures var s, actions := OneDown([], 2, 0), [Comes(1, Torn(false)), Crash, Starts(2), Comes(3, Written)];
            && Possible(s, actions)
            && Run(s, actions).books == Books([], [], [CloseOfP(1, Torn(false)), CloseOfP(3, Written)])
  {
    var tear, repeat := Comes(1, Torn(false)), Comes(3, Written);
    var s0 := OneDown([], 2, 0);
    AppendFails(Torn(false));
    var s1 := Step(s0, tear);
    var s2 := Step(s1, Crash);
    var s3 := OneDown([CloseOfP(1, Torn(false))], 4, 1);
    assert Enabled(s2, Starts(2)) && Step(s2, Starts(2)) == s3;
    RepeatedClose(s3, repeat);
    RunOfFour(s0, tear, Crash, Starts(2), repeat);
  }

  lemma RepeatedClose(s: Store, repeat: Action)
    requires s == OneDown([CloseOfP(1, Torn(false))], 4, 1) && repeat == Comes(3, Written)
    ensures Enabled(s, repeat)
    ensures Step(s, repeat).books == Books([], [], [CloseOfP(1, Torn(false)), CloseOfP(3, Written)])
  {
    assert Supervisor("p") in Writers({"p", "q"});
    assert s.books.open[0].Is("p", KindDown);
    assert Without(s.books.open, 0) == [];
    assert [CloseOfP(1, Torn(false))] + [CloseOfP(3, Written)] == [CloseOfP(1, Torn(false)), CloseOfP(3, Written)];
  }

  lemma {:induction false} RunOfFour(s: Store, a: Action, b: Action, c: Action, d: Action)
    requires Enabled(s, a) && Enabled(Step(s, a), b) && Enabled(Step(Step(s, a), b), c)
    requires Enabled(Step(Step(Step(s, a), b), c), d)
    ensures Possible(s, [a, b, c, d]) && Run(s, [a, b, c, d]) == Step(Step(Step(Step(s, a), b), c), d)
  {
    RunOfTwo(s, a, b);
    RunOfTwo(Step(Step(s, a), b), c, d);
    RunInTwo(s, [a, b], [c, d]);
    assert [a, b] + [c, d] == [a, b, c, d];
  }

  lemma {:induction false} RunOfTwo(s: Store, a: Action, b: Action)
    requires Enabled(s, a) && Enabled(Step(s, a), b)
    ensures Possible(s, [a, b]) && Run(s, [a, b]) == Step(Step(s, a), b)
  {
    var next := Step(s, a);
    assert [a, b][1..] == [b] && [b][1..] == [];
    assert Run(Step(next, b), []) == Step(next, b);
    assert Run(next, [b]) == Run(Step(next, b), []);
    assert Possible(Step(next, b), []);
    assert Possible(next, [b]);
  }

  /** The second append shares the first one's line. */
  lemma TornCloseCannotBeRead()
    ensures !IsInTheLog([CloseOfP(1, Torn(false)), CloseOfP(3, Written)], 1)
  {
    LogGivesBackIff([CloseOfP(1, Torn(false)), CloseOfP(3, Written)], 1);
    TornCloseIsNotReadBack();
  }

  lemma TornCloseIsNotReadBack()
    ensures !ReadsBack([CloseOfP(1, Torn(false)), CloseOfP(3, Written)], 1)
  {
    var log := [CloseOfP(1, Torn(false)), CloseOfP(3, Written)];
    forall day: nat, k
      ensures !ReadsBackAt(log, day, k, 1)
    {
      assert log[..1] == [log[0]] && log[..1][..0] == [];
      assert OfDay(log[..1], INCIDENTS_PREFIX, day) == if day == 0 then [log[0]] else [];
      assert OfDay(log, INCIDENTS_PREFIX, day) == if day == 0 then log else [];
      assert !EndsClean(log[..1]);
    }
  }

  /** From an empty disk: a pipeline goes down and its incident is saved, its close is cut off and the process stops, and
      after the next start it is closed again on the same day. No save but the close's own is needed. */
  lemma ATornCloseGetsLost() returns (before: seq<Action>, after: seq<Action>)
    ensures Possible(FIRST_STORE, before + after)
    ensures CanBeRead(Run(FIRST_STORE, before).books, 1) && !CanBeRead(Run(FIRST_STORE, before + after).books, 1)
  {
    before, after := [Starts(0), Goes("p")], [Comes(1, Torn(false)), Crash, Starts(2), Comes(3, Written)];
    OneGoesDown();
    CloseIsRepeated();
    RunInTwo(FIRST_STORE, before, after);
    OneDownCanBeRead();
    TornCloseCannotBeRead();
  }
}
