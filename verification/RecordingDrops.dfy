/** Which closed files a recording row's checks drop without checking them, over whole runs.
    crates/calliope-cli/src/canary/recording.rs. */
module RecordingDrops {
  import opened Recordings
  import opened RecordingRuns

  // ----- the states of a run -----

  ghost function Trace(s: State, events: seq<Event>): (t: seq<State>)
    requires IsRun(s, events)
    ensures |t| == |events| + 1 && t[0] == s
    decreases |events|
  {
    if events == [] then [s] else [s] + Trace(Step(s, events[0]), events[1..])
  }

  ghost predicate IsTrace(t: seq<State>, events: seq<Event>) {
    && |t| == |events| + 1
    && forall i :: 0 <= i < |events| ==> StepsAt(t, events, i)
  }

  ghost predicate StepsAt(t: seq<State>, events: seq<Event>, i: nat)
    requires i < |events| && |t| == |events| + 1
  {
    Sound(t[i]) && Possible(t[i], events[i]) && t[i + 1] == Step(t[i], events[i])
  }

  lemma {:induction false} TraceIsTrace(s: State, events: seq<Event>)
    requires Sound(s) && IsRun(s, events)
    ensures IsTrace(Trace(s, events), events) && Trace(s, events)[|events|] == After(s, events)
    decreases |events|
  {
    if events != [] {
      var next := Step(s, events[0]);
      StepIsSound(s, events[0]);
      TraceIsTrace(next, events[1..]);
      var t, rest := Trace(s, events), Trace(next, events[1..]);
      forall i | 0 <= i < |events|
        ensures StepsAt(t, events, i)
      {
        if i > 0 {
          assert StepsAt(rest, events[1..], i - 1);
        }
      }
    }
  }

  // ----- what stays, and what is gone for good -----

  lemma {:induction false} WrittenGrows(t: seq<State>, events: seq<Event>, i: nat, j: nat)
    requires IsTrace(t, events) && i <= j < |t|
    ensures t[i].written <= t[j].written
  {
    if i < j {
      WrittenGrows(t, events, i, j - 1);
      assert StepsAt(t, events, j - 1);
    }
  }

  lemma WasThereBefore(s: State, e: Event, f: File)
    requires Sound(s) && Possible(s, e) && f in s.written && f in Step(s, e).present
    ensures f in s.present
  {
    if e.Write? {
      assert Before(f, e.file);
    }
  }

  /** What was written and is there now was there all along. */
  lemma {:induction false} WasPresent(t: seq<State>, events: seq<Event>, i: nat, j: nat, f: File)
    requires IsTrace(t, events) && i <= j < |t| && f in t[i].written && f in t[j].present
    ensures f in t[i].present
  {
    if i < j {
      assert StepsAt(t, events, j - 1);
      WrittenGrows(t, events, i, j - 1);
      WasThereBefore(t[j - 1], events[j - 1], f);
      WasPresent(t, events, i, j - 1, f);
    }
  }

  /** A run that a later one follows writes nothing more. */
  lemma DeadRunsEnd(t: seq<State>, events: seq<Event>, i: nat, j: nat, f: File)
    requires IsTrace(t, events) && i <= j < |t| && Sound(t[j]) && HasLaterRun(t[i].written, f)
    ensures HasLaterInRun(t[j].written, f) <==> HasLaterInRun(t[i].written, f)
  {
    WrittenGrows(t, events, i, j);
    LaterStays(t[i].written, t[j].written, f);
    if HasLaterInRun(t[j].written, f) {
      var g :| g in t[j].written && g.run == f.run && Before(f, g);
      var h :| h in t[i].written && h.run > f.run;
      EarlierInPrefix(t[i].written, t[j].written, g, h);
    }
  }

  lemma EarlierInPrefix(prefix: seq<File>, all: seq<File>, g: File, h: File)
    requires prefix <= all && Ascending(all) && h in prefix && g in all && Before(g, h)
    ensures g in prefix
  {
    var i :| 0 <= i < |prefix| && prefix[i] == h;
    var j :| 0 <= j < |all| && all[j] == g;
    assert all[i] == h && j <= i;
    assert prefix[j] == g;
  }

  // ----- checks -----

  /** Event j starts the check that event i belongs to. */
  ghost predicate IsCheckOf(events: seq<Event>, j: nat, i: nat) {
    && j < i < |events| && events[j].List?
    && forall k :: j < k < i ==> IsWork(events[k])
  }

  lemma {:induction false} CheckStarts(t: seq<State>, events: seq<Event>, i: nat) returns (j: nat)
    requires IsTrace(t, events) && i < |events| && t[0].phase.Idle? && t[i].phase.Working?
    ensures IsCheckOf(events, j, i)
  {
    assert StepsAt(t, events, i - 1);
    if events[i - 1].List? {
      j := i - 1;
    } else {
      j := CheckStarts(t, events, i - 1);
    }
  }

  /** It ends before the next one starts. */
  lemma {:induction false} CheckEnds(t: seq<State>, events: seq<Event>, j: nat, k: nat) returns (i: nat)
    requires IsTrace(t, events) && j < k < |t| && events[j].List? && t[k].phase.Idle?
    ensures i < k && IsCheckOf(events, j, i) && (events[i].Finish? || events[i].Fail?)
    decreases k
  {
    i := j + 1;
    assert StepsAt(t, events, j);
    while IsWork(events[i])
      invariant j < i < k && t[i].phase.Working?
      invariant forall l :: j < l < i ==> IsWork(events[l])
      decreases k - i
    {
      assert StepsAt(t, events, i);
      i := i + 1;
    }
    assert StepsAt(t, events, i);
  }

  /** While a check works its lists only get shorter, and a listed closed file that is still there is still listed. */
  lemma {:induction false} ListsShorten(t: seq<State>, events: seq<Event>, j: nat, i: nat, f: File)
    requires IsTrace(t, events) && IsCheckOf(events, j, i)
    ensures t[i].phase.Working? && t[j + 1].phase.Working?
    ensures f in t[i].phase.cutOff ==> f in t[j + 1].phase.cutOff
    ensures f in t[j + 1].phase.closed && f in t[i].present ==> f in t[i].phase.closed
    decreases i
  {
    assert StepsAt(t, events, j);
    if i > j + 1 {
      assert IsWork(events[i - 1]);
      assert StepsAt(t, events, i - 1);
      if f in t[j + 1].phase.closed && f in t[i].present {
        ClosedIsWritten(t, events, j, f);
        WrittenGrows(t, events, j + 1, i - 1);
        WasPresent(t, events, i - 1, i, f);
      }
      ListsShorten(t, events, j, i - 1, f);
      ListsShortenOnce(t[i - 1], events[i - 1], f);
    }
  }

  lemma ListsShortenOnce(s: State, e: Event, f: File)
    requires Possible(s, e) && IsWork(e) && s.phase.Working?
    ensures var after := Step(s, e);
            && after.phase.Working?
            && (f in after.phase.cutOff ==> f in s.phase.cutOff)
            && (f in s.phase.closed && f in after.present ==> f in after.phase.closed)
  {
    if e.Check? {
      assert s.phase.closed == [s.phase.closed[0]] + s.phase.closed[1..];
    }
  }

  lemma ClosedIsWritten(t: seq<State>, events: seq<Event>, j: nat, f: File)
    requires IsTrace(t, events) && j < |events| && events[j].List?
    requires t[j + 1].phase.Working? && f in t[j + 1].phase.closed
    ensures f in t[j + 1].written
  {
    assert StepsAt(t, events, j);
    ListIsSound(t[j], events[j].listing);
    assert Roles(t[j + 1], f) == Is(f in t[j + 1].present);
    assert Places(t[j + 1], f) == Is(f in t[j + 1].written);
  }

  // ----- drops -----

  ghost predicate IsDrop(t: seq<State>, events: seq<Event>, i: nat, f: File) {
    && i < |events| && i < |t| && events[i].Drop?
    && t[i].phase.Working? && t[i].phase.cutOff != [] && t[i].phase.cutOff[0] == f
  }

  lemma {:induction false} DroppedByADrop(t: seq<State>, events: seq<Event>, n: nat, f: File)
    requires IsTrace(t, events) && n < |t| && f !in t[0].dropped
    ensures f in t[n].dropped <==> exists i: nat :: i < n && IsDrop(t, events, i, f)
  {
    if n > 0 {
      assert StepsAt(t, events, n - 1);
      DroppedByADrop(t, events, n - 1, f);
      DroppedOnce(t[n - 1], events[n - 1], f);
      if f in t[n].dropped && f !in t[n - 1].dropped {
        assert IsDrop(t, events, n - 1, f);
      }
      if i: nat :| i < n && IsDrop(t, events, i, f) {
        assert i < n - 1 || f in t[n].dropped;
      }
    }
  }

  lemma DroppedOnce(s: State, e: Event, f: File)
    requires Possible(s, e)
    ensures f in Step(s, e).dropped <==> f in s.dropped || (e.Drop? && s.phase.cutOff[0] == f)
  {
  }

  /** A dropped file was there, in a run that had ended. */
  lemma DroppedWasThere(t: seq<State>, events: seq<Event>, i: nat, f: File)
    requires IsTrace(t, events) && IsDrop(t, events, i, f)
    ensures f in t[i].present && f in t[i].written && HasLaterRun(t[i].written, f)
  {
    assert StepsAt(t, events, i);
    assert f in t[i].phase.cutOff;
    assert Roles(t[i], f) == Is(f in t[i].present);
    assert Places(t[i], f) == Is(f in t[i].written);
  }

  // ----- why a closed file is dropped -----

  predicate IsLater(f: File, g: File) {
    g.run == f.run && Before(f, g)
  }

  /** The listing lacks a later file of the run that is there. */
  ghost predicate MissesALater(t: seq<State>, events: seq<Event>, j: nat, f: File) {
    && j < |events| && j < |t| && events[j].List?
    && exists g :: g in t[j].present && g !in events[j].listing && IsLater(f, g)
  }

  /** An earlier check, that of event j, dropped a later file of the run while this one was there, and had not listed this
      one or failed before it came to it. */
  ghost predicate LeavesBehind(t: seq<State>, events: seq<Event>, j: nat, i: nat, end: nat, f: File, g: File) {
    && IsCheckOf(events, j, i) && IsDrop(t, events, i, g) && IsLater(f, g) && f in t[i].present
    && (f !in events[j].listing || (i < end && IsCheckOf(events, j, end) && events[end].Fail?))
  }

  ghost predicate WasLeftBehind(t: seq<State>, events: seq<Event>, n: nat, f: File) {
    exists j: nat, i: nat, end: nat, g :: i < n && end < n && LeavesBehind(t, events, j, i, end, f, g)
  }

  /** A file that a check drops has a later one in its run if and only if the check's listing lacked a later one that was
      there, or an earlier check left the file behind. */
  lemma {:induction false} DropsAClosedFileIff(t: seq<State>, events: seq<Event>, j: nat, i: nat, f: File)
    requires IsTrace(t, events) && t[0] == EMPTY_DIRECTORY && IsCheckOf(events, j, i) && IsDrop(t, events, i, f)
    ensures HasLaterInRun(t[i].written, f) <==> MissesALater(t, events, j, f) || WasLeftBehind(t, events, j, f)
  {
    assert StepsAt(t, events, j) && StepsAt(t, events, i);
    if MissesALater(t, events, j, f) {
      var g :| g in t[j].present && g !in events[j].listing && IsLater(f, g);
      assert Places(t[j], g) == Is(g in t[j].written);
      WrittenGrows(t, events, j, i);
      assert g in t[i].written && HasLaterInRun(t[i].written, f);
    }
    if WasLeftBehind(t, events, j, f) {
      var j0: nat, i0: nat, end: nat, g :| i0 < j && end < j && LeavesBehind(t, events, j0, i0, end, f, g);
      LaterWasWritten(t, events, i0, i, f, g);
    }
    if HasLaterInRun(t[i].written, f) {
      ClosedWasMissedOrLeft(t, events, j, i, f);
    }
  }

  lemma LaterWasWritten(t: seq<State>, events: seq<Event>, i: nat, n: nat, f: File, g: File)
    requires IsTrace(t, events) && IsDrop(t, events, i, g) && IsLater(f, g) && i <= n < |t|
    ensures HasLaterInRun(t[n].written, f)
  {
    DroppedWasThere(t, events, i, g);
    WrittenGrows(t, events, i, n);
    assert g in t[n].written;
  }

  lemma ClosedWasMissedOrLeft(t: seq<State>, events: seq<Event>, j: nat, i: nat, f: File)
    requires IsTrace(t, events) && t[0] == EMPTY_DIRECTORY && IsCheckOf(events, j, i) && IsDrop(t, events, i, f)
    requires HasLaterInRun(t[i].written, f)
    ensures MissesALater(t, events, j, f) || WasLeftBehind(t, events, j, f)
  {
    assert StepsAt(t, events, j) && StepsAt(t, events, i);
    ListsShorten(t, events, j, i, f);
    CutOffIsDead(t[j], events[j].listing, f);
    DeadRunsEnd(t, events, j, i, f);
    var last := RunHasALast(t[j], f);
    DropsTheLastIff(t[j], events[j].listing, f, last);
    assert IsLater(f, last) && last !in events[j].listing;
    if last !in t[j].present {
      LastWasDropped(t[j], last);
      DroppedByADrop(t, events, j, last);
      var i0: nat :| i0 < j && IsDrop(t, events, i0, last);
      LeftBehindByItsDrop(t, events, i0, j, f, last);
    }
  }

  lemma CutOffIsDead(s: State, listing: seq<File>, f: File)
    requires Sound(s) && Possible(s, List(listing)) && f in Step(s, List(listing)).phase.cutOff
    ensures f in s.written && f in s.present && HasLaterRun(s.written, f)
  {
    ListIsSound(s, listing);
    var t := Step(s, List(listing));
    assert Roles(t, f) == Is(f in t.present);
    assert Places(s, f) == Is(f in s.written);
  }

  /** The last file of a run leaves only by being dropped: nothing else is later in its run. */
  lemma LastWasDropped(s: State, last: File)
    requires Sound(s) && IsRunsLast(s, last) && last !in s.present
    ensures last in s.dropped
  {
    assert Places(s, last) == 1;
    assert !IsChecked(s, last);
  }

  lemma LeftBehindByItsDrop(t: seq<State>, events: seq<Event>, i: nat, n: nat, f: File, last: File)
    requires IsTrace(t, events) && t[0] == EMPTY_DIRECTORY && i < n < |events| && events[n].List?
    requires IsDrop(t, events, i, last) && IsLater(f, last) && f in t[n].present && f in t[n].written
    ensures WasLeftBehind(t, events, n, f)
  {
    assert StepsAt(t, events, i) && StepsAt(t, events, n);
    DroppedWasThere(t, events, i, last);
    WrittenGrows(t, events, i, n);
    EarlierInPrefix(t[i].written, t[n].written, f, last);
    WasPresent(t, events, i, n, f);
    var j := CheckStarts(t, events, i);
    if f !in events[j].listing {
      assert LeavesBehind(t, events, j, i, i, f, last);
    } else {
      ListedIsClosed(t, events, j, i, f, last);
      var end := CheckThatLeftItFailed(t, events, j, i, n, f);
      assert LeavesBehind(t, events, j, i, end, f, last);
    }
  }

  /** A check that listed a file as closed and left it there did not finish. */
  lemma CheckThatLeftItFailed(t: seq<State>, events: seq<Event>, j: nat, i: nat, n: nat, f: File) returns (end: nat)
    requires IsTrace(t, events) && IsCheckOf(events, j, i) && i < n < |events| && events[n].List? && IsWork(events[i])
    requires t[j + 1].phase.Working? && f in t[j + 1].phase.closed && f in t[n].present
    ensures i < end < n && IsCheckOf(events, j, end) && events[end].Fail?
  {
    assert StepsAt(t, events, n);
    end := CheckEnds(t, events, j, n);
    assert i < end;
    ClosedIsWritten(t, events, j, f);
    WrittenGrows(t, events, j + 1, end);
    WasPresent(t, events, end, n, f);
    ListsShorten(t, events, j, end, f);
    assert StepsAt(t, events, end);
  }

  lemma ListedIsClosed(t: seq<State>, events: seq<Event>, j: nat, i: nat, f: File, last: File)
    requires IsTrace(t, events) && IsCheckOf(events, j, i) && IsDrop(t, events, i, last)
    requires f in events[j].listing && IsLater(f, last)
    ensures t[j + 1].phase.Working? && f in t[j + 1].phase.closed
  {
    assert StepsAt(t, events, j);
    ListsShorten(t, events, j, i, last);
    var files := Sort(events[j].listing);
    SortIsAscending(events[j].listing);
    assert files[..|files|] == files;
    CutOffAreLastOfDeadRuns(files, |files|, last);
    ClosedHaveALater(files, |files|, f);
    assert last in files && HasLaterInRun(files, f);
  }

  /** Over every run from an empty directory: a file that a later one of its run follows is dropped unchecked if and only
      if some check drops it whose listing lacked a later one that was there, or after an earlier check left it behind. */
  lemma {:induction false} ClosedFileIsDroppedIff(events: seq<Event>, f: File)
    requires IsRun(EMPTY_DIRECTORY, events)
    ensures var s, t := After(EMPTY_DIRECTORY, events), Trace(EMPTY_DIRECTORY, events);
            f in s.dropped && HasLaterInRun(s.written, f)
            <==> exists j: nat, i: nat :: IsUnfoundedDrop(t, events, j, i, f)
  {
    var s, t, n := After(EMPTY_DIRECTORY, events), Trace(EMPTY_DIRECTORY, events), |events|;
    RunIsSound(EMPTY_DIRECTORY, events);
    TraceIsTrace(EMPTY_DIRECTORY, events);
    DroppedByADrop(t, events, n, f);
    if f in s.dropped && HasLaterInRun(s.written, f) {
      var i: nat :| i < n && IsDrop(t, events, i, f);
      DroppedWasThere(t, events, i, f);
      DeadRunsEnd(t, events, i, n, f);
      var j := CheckStarts(t, events, i);
      DropsAClosedFileIff(t, events, j, i, f);
      assert IsUnfoundedDrop(t, events, j, i, f);
    }
    if j: nat, i: nat :| IsUnfoundedDrop(t, events, j, i, f) {
      DroppedWasThere(t, events, i, f);
      DeadRunsEnd(t, events, i, n, f);
      DropsAClosedFileIff(t, events, j, i, f);
    }
  }

  ghost predicate IsUnfoundedDrop(t: seq<State>, events: seq<Event>, j: nat, i: nat, f: File) {
    && IsCheckOf(events, j, i) && IsDrop(t, events, i, f)
    && (MissesALater(t, events, j, f) || WasLeftBehind(t, events, j, f))
  }
}
