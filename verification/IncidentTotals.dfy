/** What an incident holds once samples have extended it, crates/calliope-cli/src/canary/record.rs and mod.rs: the totals
    over all findings of its pipeline and kind since it was opened, whatever the other writers do meanwhile. */
module IncidentTotals {
  import opened Prelude
  import opened DayLogs
  import opened Incidents
  import opened IncidentRuns
  import ContentChecks
  import FrameChecking

  // ----- totals -----

  function Sum(values: seq<nat>): nat {
    if values == [] then 0 else Sum(values[..|values| - 1]) + values[|values| - 1]
  }

  function Each(findings: seq<Cause>, value: Cause -> nat): (r: seq<nat>)
    ensures |r| == |findings|
  {
    seq(|findings|, i requires 0 <= i < |findings| => value(findings[i]))
  }

  function Mismatched(f: Cause): nat {
    if f.Content? then f.mismatched else 0
  }

  function Skipped(f: Cause): nat {
    if f.Content? then f.skipped else 0
  }

  function Backward(f: Cause): nat {
    if f.Timestamps? then f.backward else 0
  }

  function ForwardJumps(f: Cause): nat {
    if f.Timestamps? then f.forwardJumps else 0
  }

  /** Counts are the sums over all findings, growth is the greatest, and a recording is the one that was found first. */
  ghost predicate IsTotal(total: Cause, findings: seq<Cause>)
    requires findings != []
  {
    && (forall i :: 0 <= i < |findings| ==> findings[i].Kind() == total.Kind())
    && match total
       case Content(mismatched, skipped) =>
         && mismatched == Sum(Each(findings, Mismatched))
         && skipped == Sum(Each(findings, Skipped))
       case Timestamps(backward, forwardJumps) =>
         && backward == Sum(Each(findings, Backward))
         && forwardJumps == Sum(Each(findings, ForwardJumps))
       case MemoryGrowth(kibPerHour) =>
         && (forall i :: 0 <= i < |findings| ==> findings[i].MemoryGrowth? && findings[i].kibPerHour <= kibPerHour)
         && (exists i :: 0 <= i < |findings| && findings[i] == total)
       case _ => total == findings[0]
  }

  lemma SumOneMore(findings: seq<Cause>, later: Cause, value: Cause -> nat)
    ensures Sum(Each(findings + [later], value)) == Sum(Each(findings, value)) + value(later)
  {
    var more := Each(findings + [later], value);
    assert more[..|findings|] == Each(findings, value);
  }

  lemma TotalOfOne(finding: Cause)
    ensures IsTotal(finding, [finding])
  {
    SumOfOne(finding, Mismatched);
    SumOfOne(finding, Skipped);
    SumOfOne(finding, Backward);
    SumOfOne(finding, ForwardJumps);
  }

  lemma SumOfOne(finding: Cause, value: Cause -> nat)
    ensures Sum(Each([finding], value)) == value(finding)
  {
    SumOneMore([], finding, value);
    assert [] + [finding] == [finding];
  }

  /** Folding a finding in keeps it so. */
  lemma TotalOneMore(total: Cause, findings: seq<Cause>, later: Cause)
    requires findings != [] && IsTotal(total, findings) && total.Absorbs(later)
    ensures IsTotal(total.Absorb(later), findings + [later])
  {
    var more := findings + [later];
    SumOneMore(findings, later, Mismatched);
    SumOneMore(findings, later, Skipped);
    SumOneMore(findings, later, Backward);
    SumOneMore(findings, later, ForwardJumps);
    if total.MemoryGrowth? {
      var i :| 0 <= i < |findings| && findings[i] == total;
      assert more[i] == total && more[|findings|] == later;
    }
  }

  // ----- what becomes of an open incident -----

  /** What an action finds of this pipeline and kind. */
  function FoundBy(a: Action, pipeline: string, kind: IncidentKind): seq<Cause> {
    if a.JudgeSample? && a.pipeline == pipeline && SampleKind(a.sample) == kind && Judge(a.tier, a.sample).0.Some?
    then [Judge(a.tier, a.sample).0.value] else []
  }

  function Findings(actions: seq<Action>, pipeline: string, kind: IncidentKind): seq<Cause> {
    if actions == [] then [] else FoundBy(actions[0], pipeline, kind) + Findings(actions[1..], pipeline, kind)
  }

  function FailedBy(a: Action, pipeline: string, kind: IncidentKind): nat {
    if a.RecordFailure? && a.pipeline == pipeline && a.cause.Kind() == kind then 1 else 0
  }

  function Failures(actions: seq<Action>, pipeline: string, kind: IncidentKind): nat {
    if actions == [] then 0 else FailedBy(actions[0], pipeline, kind) + Failures(actions[1..], pipeline, kind)
  }

  /** The same incident with more findings and restarts: what it holds is the total, and all else is as it was. */
  ghost predicate IsExtended(before: Incident, after: Incident, findings: seq<Cause>, restarts: nat)
    requires findings != []
  {
    && IsTotal(after.cause, findings)
    && after.cause.Kind() == before.cause.Kind()
    && after.restarts == before.restarts + restarts
    && after == before.(cause := after.cause, restarts := after.restarts)
  }

  /** After a step of any writer an open incident is as it was, extended by what the step found of it, or closed. */
  lemma StepExtends(s: Store, a: Action, x: Incident, findings: seq<Cause>) returns (y: Option<Incident>)
    requires Sound(s) && Enabled(s, a) && IsWrite(a) && x in s.books.open
    requires findings != [] && IsTotal(x.cause, findings)
    ensures y.Some? ==>
              && y.value in Step(s, a).books.open
              && IsExtended(x, y.value, findings + FoundBy(a, x.pipeline, x.cause.Kind()),
                            FailedBy(a, x.pipeline, x.cause.Kind()))
    ensures y.None? ==> !Holds(Step(s, a).books.open, x.serial)
  {
    WorkIsDone(s, a);
    IsHeld(s.books.open, x);
    match DeedOf(s, a)
    case Puts(incident) =>
      PutsReplaceThemselves(s, a);
      var put := PutExtends(s, a, x, findings, incident);
      y := Some(put);
    case Closes(kind, now) =>
      NothingFound(s, a, x, findings);
      CloseHolds(s.books, a.pipeline, kind, now, AppendOf(a), a.saveOk, s.next, x.serial);
      y := StaysUnlessClosed(s, a, x, kind, now);
    case Rests =>
      NothingFound(s, a, x, findings);
      y := Some(x);
  }

  lemma IsHeld(open: seq<Incident>, x: Incident)
    requires x in open
    ensures Holds(open, x.serial)
  {
    var i :| 0 <= i < |open| && open[i] == x;
  }

  lemma NothingFound(s: Store, a: Action, x: Incident, findings: seq<Cause>)
    requires Sound(s) && IsWrite(a) && x in s.books.open && PutBy(s, a).None? && findings != []
    requires IsTotal(x.cause, findings)
    ensures IsExtended(x, x, findings + FoundBy(a, x.pipeline, x.cause.Kind()), FailedBy(a, x.pipeline, x.cause.Kind()))
  {
    var i :| 0 <= i < |s.books.open| && s.books.open[i] == x;
    if a.JudgeSample? {
      FindingsFold(s, a);
    }
    assert findings + [] == findings;
  }

  /** There is only one open incident of a pipeline and kind, so that is the one found. */
  lemma IsFound(open: seq<Incident>, x: Incident, pipeline: string, kind: IncidentKind)
    requires Distinct(open) && x in open && x.Is(pipeline, kind)
    ensures Get(open, pipeline, kind) == Some(x)
  {
    var i :| 0 <= i < |open| && open[i] == x;
    var p := Position(open, pipeline, kind);
    assert p.value == i;
  }

  /** A put writes the one it extends, or another that has nothing to do with it. */
  lemma PutExtends(s: Store, a: Action, x: Incident, findings: seq<Cause>, incident: Incident) returns (y: Incident)
    requires Sound(s) && Enabled(s, a) && IsWrite(a) && x in s.books.open
    requires findings != [] && IsTotal(x.cause, findings)
    requires PutBy(s, a) == Some(incident) && Replaces(s.books.open, incident)
    ensures y in s.books.Put(incident, a.saveOk).0.open
    ensures IsExtended(x, y, findings + FoundBy(a, x.pipeline, x.cause.Kind()), FailedBy(a, x.pipeline, x.cause.Kind()))
  {
    PutKeyIs(s, a, incident);
    if x.Is(incident.pipeline, incident.cause.Kind()) {
      y := incident;
      IsFound(s.books.open, x, x.pipeline, x.cause.Kind());
      FoundIsExtended(s, a, x, findings, incident);
    } else {
      y := x;
      assert findings + [] == findings;
    }
  }

  /** A put is of the pipeline and kind that the action is about. */
  lemma PutKeyIs(s: Store, a: Action, incident: Incident)
    requires Sound(s) && Enabled(s, a) && PutBy(s, a) == Some(incident)
    ensures a.JudgeSample? || a.RecordFailure?
    ensures incident.pipeline == a.pipeline
    ensures incident.cause.Kind() == if a.JudgeSample? then SampleKind(a.sample) else a.cause.Kind()
    ensures a.JudgeSample? ==> Judge(a.tier, a.sample).0.Some?
  {
  }

  lemma FoundIsExtended(s: Store, a: Action, x: Incident, findings: seq<Cause>, incident: Incident)
    requires Sound(s) && Enabled(s, a) && PutBy(s, a) == Some(incident)
    requires x.Is(incident.pipeline, incident.cause.Kind()) && Get(s.books.open, x.pipeline, x.cause.Kind()) == Some(x)
    requires findings != [] && IsTotal(x.cause, findings)
    ensures IsExtended(x, incident, findings + FoundBy(a, x.pipeline, x.cause.Kind()),
                       FailedBy(a, x.pipeline, x.cause.Kind()))
  {
    PutKeyIs(s, a, incident);
    if a.JudgeSample? {
      FindingsFold(s, a);
      TotalOneMore(x.cause, findings, Judge(a.tier, a.sample).0.value);
    } else {
      assert findings + [] == findings;
    }
  }

  lemma StaysUnlessClosed(s: Store, a: Action, x: Incident, kind: IncidentKind, now: nat) returns (y: Option<Incident>)
    requires Sound(s) && IsWrite(a) && x in s.books.open
    ensures var after := s.books.Close(a.pipeline, kind, now, AppendOf(a), a.saveOk).0;
            y == (if Closing(s.books, a.pipeline, kind) == Some(x.serial) then None else Some(x))
            && (y.Some? ==> x in after.open)
  {
    var p := Position(s.books.open, a.pipeline, kind);
    if Closing(s.books, a.pipeline, kind) == Some(x.serial) {
      y := None;
    } else {
      y := Some(x);
      assert p.Some? ==> s.books.open[p.value].serial != x.serial;
    }
  }

  // ----- over a run -----

  ghost predicate AreWrites(actions: seq<Action>) {
    forall i :: 0 <= i < |actions| ==> IsWrite(actions[i])
  }

  /** If it is still open, it has been extended so. */
  ghost predicate IsOpenExtended(open: seq<Incident>, x: Incident, findings: seq<Cause>, restarts: nat)
    requires findings != []
  {
    Holds(open, x.serial) ==> exists y :: y in open && y.serial == x.serial && IsExtended(x, y, findings, restarts)
  }

  /** As long as the process runs, an incident that is still open holds the totals over all that was found of its pipeline
      and kind, and one restart for each failure. All else of it is as it was. */
  lemma {:induction false} OpenHoldsTotals(s: Store, actions: seq<Action>, x: Incident, findings: seq<Cause>)
    requires Sound(s) && Possible(s, actions) && AreWrites(actions) && x in s.books.open
    requires findings != [] && IsTotal(x.cause, findings)
    ensures IsOpenExtended(Run(s, actions).books.open, x, findings + Findings(actions, x.pipeline, x.cause.Kind()),
                           Failures(actions, x.pipeline, x.cause.Kind()))
    decreases |actions|
  {
    if actions == [] {
      IsNotExtended(s.books.open, x, findings);
    } else {
      var a, rest := actions[0], actions[1..];
      StepIsSound(s, a);
      RestAreWrites(actions);
      var y := StepExtends(s, a, x, findings);
      if y.Some? {
        var more := findings + FoundBy(a, x.pipeline, x.cause.Kind());
        OpenHoldsTotals(Step(s, a), rest, y.value, more);
        ExtendedByAll(Run(Step(s, a), rest).books.open, x, y.value, findings, actions);
      } else {
        IsUsed(s, x);
        ClosedStaysClosed(Step(s, a), rest, x.serial);
      }
    }
  }

  lemma IsNotExtended(open: seq<Incident>, x: Incident, findings: seq<Cause>)
    requires x in open && findings != [] && IsTotal(x.cause, findings)
    ensures IsOpenExtended(open, x, findings + Findings([], x.pipeline, x.cause.Kind()), 0)
  {
    assert findings + [] == findings;
    assert IsExtended(x, x, findings, 0);
  }

  lemma RestAreWrites(actions: seq<Action>)
    requires actions != [] && AreWrites(actions)
    ensures IsWrite(actions[0]) && AreWrites(actions[1..])
  {
  }

  lemma {:induction false} ExtendedByAll(open: seq<Incident>, x: Incident, y: Incident, findings: seq<Cause>,
                                         actions: seq<Action>)
    requires findings != [] && actions != []
    requires IsExtended(x, y, findings + FoundBy(actions[0], x.pipeline, x.cause.Kind()),
                        FailedBy(actions[0], x.pipeline, x.cause.Kind()))
    requires IsOpenExtended(open, y, findings + FoundBy(actions[0], x.pipeline, x.cause.Kind())
                                     + Findings(actions[1..], y.pipeline, y.cause.Kind()),
                            Failures(actions[1..], y.pipeline, y.cause.Kind()))
    ensures IsOpenExtended(open, x, findings + Findings(actions, x.pipeline, x.cause.Kind()),
                           Failures(actions, x.pipeline, x.cause.Kind()))
  {
    var kind := x.cause.Kind();
    var found, later := FoundBy(actions[0], x.pipeline, kind), Findings(actions[1..], x.pipeline, kind);
    Regroup(findings, found, later);
    ExtendedTwice(open, x, y, findings + found, later, FailedBy(actions[0], x.pipeline, kind),
                  Failures(actions[1..], x.pipeline, kind));
  }

  lemma Regroup(a: seq<Cause>, b: seq<Cause>, c: seq<Cause>)
    ensures a + b + c == a + (b + c)
  {
  }

  lemma ExtendedTwice(open: seq<Incident>, x: Incident, y: Incident, some: seq<Cause>, more: seq<Cause>,
                      restarts: nat, moreRestarts: nat)
    requires some != [] && IsExtended(x, y, some, restarts) && IsOpenExtended(open, y, some + more, moreRestarts)
    ensures IsOpenExtended(open, x, some + more, restarts + moreRestarts)
  {
    if Holds(open, x.serial) {
      var z :| z in open && z.serial == y.serial && IsExtended(y, z, some + more, moreRestarts);
      assert IsExtended(x, z, some + more, restarts + moreRestarts);
    }
  }

  lemma IsUsed(s: Store, x: Incident)
    requires Sound(s) && x in s.books.open
    ensures x.serial < s.next
  {
    IsHeld(s.books.open, x);
    SerialsAreUsed(s, x.serial);
  }

  lemma {:induction false} ClosedStaysClosed(s: Store, actions: seq<Action>, serial: nat)
    requires Sound(s) && Possible(s, actions) && AreWrites(actions)
    requires serial < s.next && !Holds(s.books.open, serial)
    ensures !Holds(Run(s, actions).books.open, serial)
    decreases |actions|
  {
    if actions != [] {
      var a := actions[0];
      assert IsWrite(a);
      StepIsSound(s, a);
      WriteHolds(s, a, serial);
      if PutsIt(s, a, serial) {
        PutsWhatIsOpen(s, a, serial);
      }
      ClosedStaysClosed(Step(s, a), actions[1..], serial);
    }
  }

  // ----- what opens one -----

  /** A finding of a pipeline and kind that has no open incident opens one: it holds the finding, starts when the sample
      was taken, and has no restarts. */
  lemma SampleOpens(s: Store, a: Action)
    requires Sound(s) && Enabled(s, a) && a.JudgeSample? && Judge(a.tier, a.sample).0.Some?
    requires Get(s.books.open, a.pipeline, SampleKind(a.sample)).None?
    ensures var finding := Judge(a.tier, a.sample).0.value;
            && Incident(s.next, a.id, a.pipeline, a.tier, a.now, None, finding, 0, None, None) in Step(s, a).books.open
            && IsTotal(finding, [finding])
  {
    WorkIsDone(s, a);
    TotalOfOne(Judge(a.tier, a.sample).0.value);
  }

  /** A failure that comes after the grace opens one with its cause, from then on, with one restart. */
  lemma FailureOpens(s: Store, a: Action)
    requires Sound(s) && Enabled(s, a) && a.RecordFailure? && !a.inGrace
    requires Get(s.books.open, a.pipeline, a.cause.Kind()).None?
    ensures Incident(s.next, a.id, a.pipeline, a.tier, a.failedAt, None, a.cause, 1, a.lastError, Some(a.stderr))
            in Step(s, a).books.open
    ensures IsTotal(a.cause, [a.cause])
  {
    WorkIsDone(s, a);
    TotalOfOne(a.cause);
  }

  /** One that comes within the grace opens none. */
  lemma FailureInGraceOpensNone(s: Store, a: Action)
    requires a.RecordFailure? && a.inGrace && Get(s.books.open, a.pipeline, a.cause.Kind()).None?
    ensures Step(s, a).books == s.books
  {
    WorkIsDone(s, a);
  }

  // ----- what a sample shows -----

  /** When a sample gives a finding, and when it is clean. Content and timestamps of a pipeline with faults give none. */
  lemma SampleShows(tier: Tier, sample: Sample)
    ensures var (finding, clean) := Judge(tier, sample);
            match sample
            case ContentSample(None) => finding.None? && !clean
            case ContentSample(Some(c)) =>
              && (finding.Some? <==> tier != Faulted && (c.mismatched > 0 || c.skipped > 0))
              && (finding.Some? ==> finding == Some(Content(c.mismatched, c.skipped)))
              && (clean <==> c.matched > 0 && (tier == Faulted || (c.mismatched == 0 && c.skipped == 0)))
            case TimestampSample(None) => finding.None? && !clean
            case TimestampSample(Some(c)) =>
              && (finding.Some? <==> tier != Faulted && (c.backward > 0 || c.forwardJumps > 0))
              && (finding.Some? ==> finding == Some(Timestamps(c.backward, c.forwardJumps)))
              && (clean <==> tier == Faulted || (c.backward == 0 && c.forwardJumps == 0))
            case MemorySample(None) => finding.None? && !clean
            case MemorySample(Some(growth)) =>
              && (finding.Some? <==> growth > 512.0)
              && (finding.Some? ==> finding == Some(MemoryGrowth(growth)))
              && (clean <==> growth <= 512.0)
            case RecordingVerdict(file, failure) =>
              && (finding == if failure.None? then None else Some(Recording(Some(file), failure.value)))
              && (clean <==> failure.None?)
            case RecordingIdle(idle) => finding == Some(Recording(None, idle)) && !clean
  {
  }

  // ----- what closes one -----

  lemma CloseClears(b: Books, pipeline: string, kind: IncidentKind, now: nat, append: Outcome, saveOk: bool, next: nat,
                    x: Incident)
    requires SoundBooks(b, next) && x in b.Close(pipeline, kind, now, append, saveOk).0.open
    ensures x.pipeline == pipeline ==> x.cause.Kind() != kind
  {
    CloseIsSound(b, pipeline, kind, now, append, saveOk, next);
    var after := b.Close(pipeline, kind, now, append, saveOk).0.open;
    var i :| 0 <= i < |after| && after[i] == x;
    assert !after[i].Is(pipeline, kind);
  }

  /** However a run ended, frames that flow again leave no incident of it open. */
  lemma FramesFlowCloses(s: Store, a: Action, x: Incident)
    requires Sound(s) && a.FramesFlow? && x in Step(s, a).books.open && x.pipeline == a.pipeline
    ensures !x.cause.Exit? && !x.cause.Signal? && !x.cause.Stall? && !x.cause.SpawnFailed?
  {
    CloseClears(s.books, a.pipeline, KindDown, a.now, a.append, a.saveOk, s.next, x);
  }

  /** A recovery leaves none of a missed recovery open. */
  lemma RecoveryCloses(s: Store, a: Action, x: Incident)
    requires Sound(s) && a.Recovered? && x in Step(s, a).books.open && x.pipeline == a.pipeline
    ensures !x.cause.NoRecovery?
  {
    CloseClears(s.books, a.pipeline, KindNoRecovery, a.windowEnd, a.append, a.saveOk, s.next, x);
  }

  /** A clean sample leaves no incident of its kind open. */
  lemma CleanSampleCloses(s: Store, a: Action, x: Incident)
    requires Sound(s) && a.JudgeSample? && Judge(a.tier, a.sample).1 && x in Step(s, a).books.open
    ensures x.pipeline == a.pipeline ==> x.cause.Kind() != SampleKind(a.sample)
  {
    WorkIsDone(s, a);
    CloseClears(s.books, a.pipeline, SampleKind(a.sample), a.now, a.append, a.saveOk, s.next, x);
  }

  /** What is appended for a close: the incident as it was open, ended at the time of the close, to the log of that
      day. */
  lemma CloseSays(b: Books, pipeline: string, kind: IncidentKind, now: nat, append: Outcome, saveOk: bool, x: Incident)
    requires Distinct(b.open) && x in b.open && x.Is(pipeline, kind)
    ensures b.Close(pipeline, kind, now, append, saveOk).0.log
            == b.log + [Entry("incidents", now, x.(end := Some(now)), append)]
  {
    IsFound(b.open, x, pipeline, kind);
  }
}
