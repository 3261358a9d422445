/** Runs of a recording row's directory: a pipeline writes files while checks list, drop and check them, one step at a
    time, and a check can fail at any of its steps. crates/calliope-cli/src/canary/recording.rs and
    crates/calliope-cli/src/canary/mod.rs. */
module RecordingRuns {
  import opened Recordings

  /** What a check under way has left to do. `rest` are the files it saw no reason to touch or did not see, and `listed`
      counts the files written before it. */
  datatype Phase = Idle | Working(cutOff: seq<File>, closed: seq<File>, rest: set<File>, listed: nat)

  /** `reported` files were checked and the check's report came back, `pending` ones were checked by the check under way,
      and `lost` ones by a check that then failed, so that nothing is known of how they fared. */
  datatype State = State(written: seq<File>, present: set<File>, dropped: set<File>, pending: set<File>,
                         reported: set<File>, lost: set<File>, phase: Phase)

  /** A listing may miss files. A check that fails may have moved the file it failed at. */
  datatype Event = Write(file: File) | List(listing: seq<File>) | Drop | Check | Finish | Fail(moved: bool)

  const EMPTY_DIRECTORY := State([], {}, {}, {}, {}, {}, Idle)

  ghost predicate Possible(s: State, e: Event) {
    match e
    case Write(f) => forall g :: g in s.written ==> Before(g, f)
    case List(listing) => s.phase.Idle? && NoRepeats(listing) && Elements(listing) <= s.present
    case Drop => s.phase.Working? && s.phase.cutOff != []
    case Check => s.phase.Working? && s.phase.cutOff == [] && s.phase.closed != []
    case Finish => s.phase.Working? && s.phase.cutOff == [] && s.phase.closed == []
    case Fail(moved) => s.phase.Working? && (moved ==> s.phase.cutOff == [] && s.phase.closed != [])
  }

  function Step(s: State, e: Event): State
    requires Possible(s, e)
  {
    match e
    case Write(f) => s.(written := s.written + [f], present := s.present + {f})
    case List(listing) =>
      var files := Sort(listing);
      var cutOff, closed := CutOff(files, |files|), Closed(files, |files|);
      s.(phase := Working(cutOff, closed, s.present - Elements(cutOff) - Elements(closed), |s.written|))
    case Drop =>
      var f := s.phase.cutOff[0];
      s.(present := s.present - {f}, dropped := s.dropped + {f}, phase := s.phase.(cutOff := s.phase.cutOff[1..]))
    case Check =>
      var f := s.phase.closed[0];
      s.(present := s.present - {f}, pending := s.pending + {f}, phase := s.phase.(closed := s.phase.closed[1..]))
    case Finish => s.(pending := {}, reported := s.reported + s.pending, phase := Idle)
    case Fail(moved) =>
      var gone := if moved then {s.phase.closed[0]} else {};
      s.(present := s.present - gone, pending := {}, lost := s.lost + s.pending + gone, phase := Idle)
  }

  // ----- what every step keeps -----

  function Is(b: bool): nat {
    if b then 1 else 0
  }

  /** In how many places a file is. */
  function Places(s: State, f: File): nat {
    Is(f in s.present) + Is(f in s.dropped) + Is(f in s.pending) + Is(f in s.reported) + Is(f in s.lost)
  }

  ghost predicate Conserved(s: State) {
    forall f :: Places(s, f) == Is(f in s.written)
  }

  predicate IsChecked(s: State, f: File) {
    f in s.pending || f in s.reported || f in s.lost
  }

  ghost predicate OnlyClosedAreChecked(s: State) {
    forall f :: IsChecked(s, f) ==> HasLaterInRun(s.written, f)
  }

  ghost predicate OnlyDeadRunsAreDropped(s: State) {
    forall f :: f in s.dropped ==> HasLaterRun(s.written, f)
  }

  /** Where a present file stands with the check under way. */
  function Roles(s: State, f: File): nat
    requires s.phase.Working? && s.phase.listed <= |s.written|
  {
    Is(f in s.phase.cutOff) + Is(f in s.phase.closed) + Is(f in s.phase.rest) + Is(f in s.written[s.phase.listed..])
  }

  ghost predicate WorkIsSound(s: State) {
    s.phase.Working? ==>
      && s.phase.listed <= |s.written|
      && NoRepeats(s.phase.cutOff)
      && NoRepeats(s.phase.closed)
      && (forall f :: Roles(s, f) == Is(f in s.present))
      && (forall f :: f in s.phase.cutOff ==> HasLaterRun(s.written, f))
      && (forall f :: f in s.phase.closed ==> HasLaterInRun(s.written, f))
  }

  ghost predicate Sound(s: State) {
    && Ascending(s.written)
    && Conserved(s)
    && OnlyClosedAreChecked(s)
    && OnlyDeadRunsAreDropped(s)
    && (s.phase.Idle? ==> s.pending == {})
    && WorkIsSound(s)
  }

  lemma LaterStays(files: seq<File>, more: seq<File>, f: File)
    requires forall g :: g in files ==> g in more
    ensures HasLaterInRun(files, f) ==> HasLaterInRun(more, f)
    ensures HasLaterRun(files, f) ==> HasLaterRun(more, f)
  {
    if HasLaterInRun(files, f) {
      var g :| g in files && g.run == f.run && Before(f, g);
      assert g in more;
    }
    if HasLaterRun(files, f) {
      var g :| g in files && g.run > f.run;
      assert g in more;
    }
  }

  lemma WriteIsSound(s: State, f: File)
    requires Sound(s) && Possible(s, Write(f))
    ensures Sound(Step(s, Write(f)))
  {
    var t := Step(s, Write(f));
    assert f !in s.written;
    assert Places(s, f) == 0;
    forall g
      ensures HasLaterInRun(s.written, g) ==> HasLaterInRun(t.written, g)
      ensures HasLaterRun(s.written, g) ==> HasLaterRun(t.written, g)
    {
      LaterStays(s.written, t.written, g);
    }
    if s.phase.Working? {
      assert Roles(s, f) == 0;
      assert t.written[s.phase.listed..] == s.written[s.phase.listed..] + [f];
    }
  }

  lemma ListIsSound(s: State, listing: seq<File>)
    requires Sound(s) && Possible(s, List(listing))
    ensures Sound(Step(s, List(listing)))
  {
    var files := Sort(listing);
    SortIsAscending(listing);
    assert files[..|files|] == files;
    ClosedIsAscending(files, |files|);
    CutOffIsAscending(files, |files|);
    AscendingHasNoRepeats(Closed(files, |files|));
    AscendingHasNoRepeats(CutOff(files, |files|));
    var t := Step(s, List(listing));
    forall f | f in listing
      ensures f in s.present && f in s.written
    {
      assert f in Elements(listing);
      assert Places(s, f) == 1;
    }
    forall f | f in t.phase.closed
      ensures f !in t.phase.cutOff && HasLaterInRun(s.written, f)
    {
      ClosedHaveALater(files, |files|, f);
      AllButTheNewest(files, f);
      LaterStays(files, s.written, f);
    }
    forall f | f in t.phase.cutOff
      ensures HasLaterRun(s.written, f)
    {
      CutOffAreLastOfDeadRuns(files, |files|, f);
      LaterStays(files, s.written, f);
    }
  }

  /** What is left of a list without repeats when its first is taken. */
  lemma TakeFirst(s: seq<File>, f: File)
    requires NoRepeats(s) && s != []
    ensures NoRepeats(s[1..])
    ensures f in s[1..] <==> f in s && f != s[0]
  {
    assert s == [s[0]] + s[1..];
  }

  lemma DropIsSound(s: State)
    requires Sound(s) && Possible(s, Drop)
    ensures Sound(Step(s, Drop))
  {
    var t := Step(s, Drop);
    forall g
      ensures g in t.phase.cutOff <==> g in s.phase.cutOff && g != s.phase.cutOff[0]
    {
      TakeFirst(s.phase.cutOff, g);
    }
    TakeFirst(s.phase.cutOff, s.phase.cutOff[0]);
    assert Roles(s, s.phase.cutOff[0]) == 1;
    assert Places(s, s.phase.cutOff[0]) == 1;
  }

  lemma CheckIsSound(s: State)
    requires Sound(s) && Possible(s, Check)
    ensures Sound(Step(s, Check))
  {
    var t := Step(s, Check);
    forall g
      ensures g in t.phase.closed <==> g in s.phase.closed && g != s.phase.closed[0]
    {
      TakeFirst(s.phase.closed, g);
    }
    TakeFirst(s.phase.closed, s.phase.closed[0]);
    assert Roles(s, s.phase.closed[0]) == 1;
    assert Places(s, s.phase.closed[0]) == 1;
  }

  lemma FailIsSound(s: State, moved: bool)
    requires Sound(s) && Possible(s, Fail(moved))
    ensures Sound(Step(s, Fail(moved)))
  {
    if moved {
      assert Roles(s, s.phase.closed[0]) == 1;
      assert Places(s, s.phase.closed[0]) == 1;
    }
  }

  lemma StepIsSound(s: State, e: Event)
    requires Sound(s) && Possible(s, e)
    ensures Sound(Step(s, e))
  {
    match e
    case Write(f) => WriteIsSound(s, f);
    case List(listing) => ListIsSound(s, listing);
    case Drop => DropIsSound(s);
    case Check => CheckIsSound(s);
    case Finish =>
    case Fail(moved) => FailIsSound(s, moved);
  }

  // ----- whole runs -----

  ghost predicate IsRun(s: State, events: seq<Event>)
    decreases |events|
  {
    events == [] || (Possible(s, events[0]) && IsRun(Step(s, events[0]), events[1..]))
  }

  ghost function After(s: State, events: seq<Event>): State
    requires IsRun(s, events)
    decreases |events|
  {
    if events == [] then s else After(Step(s, events[0]), events[1..])
  }

  lemma {:induction false} RunIsSound(s: State, events: seq<Event>)
    requires Sound(s) && IsRun(s, events)
    ensures Sound(After(s, events))
    decreases |events|
  {
    if events != [] {
      StepIsSound(s, events[0]);
      RunIsSound(Step(s, events[0]), events[1..]);
    }
  }

  /** In every run from an empty directory each file written is in one place: still there, dropped, or checked. A checked
      one has a later one in its run, a dropped one a later run, and the newest of all is still there. */
  lemma {:induction false} EveryFileIsAccountedFor(events: seq<Event>)
    requires IsRun(EMPTY_DIRECTORY, events)
    ensures var s := After(EMPTY_DIRECTORY, events);
            && Conserved(s)
            && OnlyClosedAreChecked(s)
            && OnlyDeadRunsAreDropped(s)
            && (s.written != [] ==> s.written[|s.written| - 1] in s.present)
  {
    RunIsSound(EMPTY_DIRECTORY, events);
    var s := After(EMPTY_DIRECTORY, events);
    if s.written != [] {
      NewestIsPresent(s);
    }
  }

  lemma NewestIsPresent(s: State)
    requires Sound(s) && s.written != []
    ensures s.written[|s.written| - 1] in s.present
  {
    var i := |s.written| - 1;
    var newest := s.written[i];
    NewestHasNoLater(s.written, i);
    LaterRunIsThere(s.written, i);
    assert Places(s, newest) == 1;
  }

  // ----- what a check leaves -----

  predicate IsWork(e: Event) {
    e.Write? || e.Drop? || e.Check?
  }

  ghost predicate SeesAll(s: State, listing: seq<File>) {
    Lists(listing, s.present)
  }

  lemma {:induction false} WorkKeepsRest(s: State, events: seq<Event>)
    requires s.phase.Working? && IsRun(s, events) && forall i :: 0 <= i < |events| ==> IsWork(events[i])
    ensures var t := After(s, events); t.phase.Working? && t.phase.rest == s.phase.rest && t.phase.listed == s.phase.listed
    ensures |s.written| <= |After(s, events).written| && After(s, events).written[..|s.written|] == s.written
    decreases |events|
  {
    if events != [] {
      assert IsWork(events[0]);
      WorkKeepsRest(Step(s, events[0]), events[1..]);
    }
  }

  lemma RestIsTheNewest(s: State, listing: seq<File>)
    requires Sound(s) && Possible(s, List(listing)) && SeesAll(s, listing)
    ensures Step(s, List(listing)).phase.rest == if s.written == [] then {} else {s.written[|s.written| - 1]}
  {
    var files := Sort(listing);
    SortIsAscending(listing);
    var t := Step(s, List(listing));
    forall f | f in s.present
      ensures f in t.phase.rest <==> f == files[|files| - 1]
      ensures f in s.written
    {
      AllButTheNewest(files, f);
      assert Places(s, f) >= 1;
    }
    if s.written == [] {
      assert t.phase.rest == {};
    } else {
      NewestIsPresent(s);
      LastIsLast(s.written, files);
    }
  }

  lemma LastIsLast(files: seq<File>, some: seq<File>)
    requires Ascending(files) && Ascending(some) && files != [] && files[|files| - 1] in some
    requires forall f :: f in some ==> f in files
    ensures some[|some| - 1] == files[|files| - 1]
  {
    var last, top := files[|files| - 1], some[|some| - 1];
    var i :| 0 <= i < |some| && some[i] == last;
    if i < |some| - 1 {
      assert Before(last, top);
      assert top in files;
      var j :| 0 <= j < |files| && files[j] == top;
      assert j == |files| - 1 || Before(top, last);
    }
  }

  /** After a check that saw all files, what is still there is the newest of them and whatever was written meanwhile. */
  lemma {:induction false} CheckLeavesTheNewest(s: State, listing: seq<File>, events: seq<Event>)
    requires Sound(s) && Possible(s, List(listing)) && SeesAll(s, listing)
    requires IsRun(Step(s, List(listing)), events) && forall i :: 0 <= i < |events| ==> IsWork(events[i])
    requires Possible(After(Step(s, List(listing)), events), Finish)
    ensures var t := Step(After(Step(s, List(listing)), events), Finish);
            && |s.written| <= |t.written|
            && t.present == (if s.written == [] then {} else {s.written[|s.written| - 1]})
                            + Elements(t.written[|s.written|..])
  {
    var listed := Step(s, List(listing));
    ListIsSound(s, listing);
    RunIsSound(listed, events);
    WorkKeepsRest(listed, events);
    RestIsTheNewest(s, listing);
    var done := After(listed, events);
    forall f
      ensures f in done.present <==> f in done.phase.rest || f in done.written[|s.written|..]
    {
      assert Roles(done, f) == Is(f in done.present);
    }
  }

  // ----- which files are dropped -----

  /** The last file its run ever wrote. */
  ghost predicate IsRunsLast(s: State, f: File) {
    f in s.written && !HasLaterInRun(s.written, f)
  }

  /** A file of the same run. */
  ghost predicate LastOf(s: State, f: File, last: File) {
    IsRunsLast(s, last) && last.run == f.run
  }

  /** What a check cuts off is the last file its run ever wrote exactly if the check's listing has that last file. */
  lemma DropsTheLastIff(s: State, listing: seq<File>, f: File, last: File)
    requires Sound(s) && Possible(s, List(listing))
    requires f in Step(s, List(listing)).phase.cutOff && LastOf(s, f, last)
    ensures f in s.present && (f == last || Before(f, last))
    ensures IsRunsLast(s, f) <==> last in listing
  {
    var files := Sort(listing);
    SortIsAscending(listing);
    CutOffAreLastOfDeadRuns(files, |files|, f);
    assert files[..|files|] == files;
    assert f in Elements(listing) && Places(s, f) == 1;
    assert Before(last, f) ==> HasLaterInRun(s.written, last);
    assert f == last || Before(f, last);
    if last in listing {
      assert last in files;
      assert Before(f, last) ==> HasLaterInRun(files, f);
    } else {
      assert HasLaterInRun(s.written, f);
    }
  }

  predicate IsListedAsClosed(s: State, f: File) {
    s.phase.Working? && f in s.phase.closed
  }

  ghost predicate LastIsThere(s: State, f: File) {
    forall last :: LastOf(s, f, last) ==> last in s.present
  }

  ghost predicate OnlyLastsDropped(s: State) {
    forall f :: f in s.dropped ==> IsRunsLast(s, f)
  }

  /** What is cut off is the last of its run, and the rest of the run is about to be checked. */
  ghost predicate CutOffAreLasts(s: State)
    requires s.phase.Working?
  {
    && (forall f :: f in s.phase.cutOff ==> IsRunsLast(s, f))
    && (forall f, g :: f in s.phase.cutOff && g in s.present && g.run == f.run && g != f ==> g in s.phase.closed)
  }

  /** Only last files are dropped or about to be, and while a file is there that is not about to be checked, its run's
      last file is. */
  ghost predicate LastsAreThere(s: State) {
    && OnlyLastsDropped(s)
    && (forall f :: f in s.present && !IsListedAsClosed(s, f) ==> LastIsThere(s, f))
    && (s.phase.Working? ==> CutOffAreLasts(s))
  }

  /** A step of a check that sees all files and does not fail. */
  ghost predicate IsSmooth(s: State, e: Event) {
    !e.Fail? && (e.List? ==> SeesAll(s, e.listing))
  }

  lemma SmoothWrite(s: State, f: File)
    requires Sound(s) && LastsAreThere(s) && Possible(s, Write(f))
    ensures LastsAreThere(Step(s, Write(f)))
  {
    var t := Step(s, Write(f));
    forall g | g in s.dropped || (s.phase.Working? && g in s.phase.cutOff)
      ensures IsRunsLast(t, g) && g.run != f.run
    {
      LastOfDeadRunStays(s, f, g);
    }
    forall g | g in t.present && !IsListedAsClosed(t, g)
      ensures LastIsThere(t, g)
    {
      if g != f {
        assert LastIsThere(s, g);
      }
      WriteLeavesLast(s, f, g);
    }
  }

  lemma LastOfDeadRunStays(s: State, f: File, g: File)
    requires Possible(s, Write(f)) && IsRunsLast(s, g) && HasLaterRun(s.written, g)
    ensures IsRunsLast(Step(s, Write(f)), g) && g.run != f.run
  {
    var later :| later in s.written && later.run > g.run;
    assert Before(later, f);
  }

  lemma WriteLeavesLast(s: State, f: File, g: File)
    requires Possible(s, Write(f)) && (g == f || LastIsThere(s, g))
    ensures LastIsThere(Step(s, Write(f)), g)
  {
    var t := Step(s, Write(f));
    forall last | LastOf(t, g, last)
      ensures last in t.present
    {
      LaterStays(s.written, t.written, last);
      assert last == f || LastOf(s, g, last);
      assert last in s.written && last.run == f.run ==> Before(last, f) && HasLaterInRun(t.written, last);
    }
  }

  lemma SmoothList(s: State, listing: seq<File>)
    requires Sound(s) && LastsAreThere(s) && Possible(s, List(listing)) && SeesAll(s, listing)
    ensures LastsAreThere(Step(s, List(listing)))
  {
    var t := Step(s, List(listing));
    ListIsSound(s, listing);
    forall f | f in t.phase.cutOff
      ensures IsRunsLast(t, f)
    {
      assert Roles(t, f) == Is(f in t.present);
      assert f in s.present && Places(s, f) == 1;
      var last := RunHasALast(s, f);
      DropsTheLastIff(s, listing, f, last);
    }
    forall f, g | f in t.phase.cutOff && g in t.present && g.run == f.run && g != f
      ensures g in t.phase.closed
    {
      OthersAreClosed(s, listing, f, g);
    }
  }

  lemma OthersAreClosed(s: State, listing: seq<File>, f: File, g: File)
    requires Possible(s, List(listing)) && SeesAll(s, listing)
    requires f in Step(s, List(listing)).phase.cutOff && g in s.present && g.run == f.run && g != f
    ensures g in Step(s, List(listing)).phase.closed
  {
    var files := Sort(listing);
    SortIsAscending(listing);
    assert files[..|files|] == files;
    CutOffAreLastOfDeadRuns(files, |files|, f);
    ClosedHaveALater(files, |files|, g);
    var i :| 0 <= i < |files| && files[i] == f;
    var j :| 0 <= j < |files| && files[j] == g;
    assert i < j ==> Before(f, g);
    assert j < i ==> Before(g, f);
  }

  /** Every run has a last file. */
  lemma RunHasALast(s: State, f: File) returns (last: File)
    requires Ascending(s.written) && f in s.written
    ensures LastOf(s, f, last)
  {
    var i :| 0 <= i < |s.written| && s.written[i] == f;
    while !IsNewestOfRun(s.written, i)
      invariant 0 <= i < |s.written| && s.written[i].run == f.run
      decreases |s.written| - i
    {
      i := i + 1;
    }
    last := s.written[i];
    NewestHasNoLater(s.written, i);
  }

  lemma SmoothDrop(s: State)
    requires Sound(s) && LastsAreThere(s) && Possible(s, Drop)
    ensures LastsAreThere(Step(s, Drop))
  {
    var t, f := Step(s, Drop), s.phase.cutOff[0];
    assert forall g :: IsRunsLast(t, g) <==> IsRunsLast(s, g);
    assert IsRunsLast(s, f);
    DropKeepsCutOff(s);
    forall g | g in t.present && !IsListedAsClosed(t, g)
      ensures LastIsThere(t, g)
    {
      DropLeavesLast(s, g);
    }
  }

  lemma DropKeepsCutOff(s: State)
    requires Sound(s) && Possible(s, Drop) && CutOffAreLasts(s)
    ensures CutOffAreLasts(Step(s, Drop))
  {
    var t, f := Step(s, Drop), s.phase.cutOff[0];
    forall g | g in t.phase.cutOff
      ensures g in s.phase.cutOff && IsRunsLast(t, g)
    {
      TakeFirst(s.phase.cutOff, g);
      assert IsRunsLast(s, g);
    }
  }

  lemma DropLeavesLast(s: State, g: File)
    requires Possible(s, Drop) && LastIsThere(s, g) && CutOffAreLasts(s)
    requires g in s.present && g != s.phase.cutOff[0] && g !in s.phase.closed
    ensures LastIsThere(Step(s, Drop), g)
  {
    var t := Step(s, Drop);
    forall last | LastOf(t, g, last)
      ensures last in t.present
    {
      assert LastOf(s, g, last);
    }
  }

  lemma SmoothCheck(s: State)
    requires Sound(s) && LastsAreThere(s) && Possible(s, Check)
    ensures LastsAreThere(Step(s, Check))
  {
    var t, f := Step(s, Check), s.phase.closed[0];
    assert HasLaterInRun(s.written, f);
    assert forall g :: IsRunsLast(t, g) <==> IsRunsLast(s, g);
    forall g
      ensures g in t.phase.closed <==> g in s.phase.closed && g != f
    {
      TakeFirst(s.phase.closed, g);
    }
    forall g | g in t.present && !IsListedAsClosed(t, g)
      ensures LastIsThere(t, g)
    {
      assert LastIsThere(s, g);
      assert forall last :: LastOf(t, g, last) ==> LastOf(s, g, last);
    }
  }

  ghost predicate IsSmoothRun(s: State, events: seq<Event>)
    requires IsRun(s, events)
    decreases |events|
  {
    events == [] || (IsSmooth(s, events[0]) && IsSmoothRun(Step(s, events[0]), events[1..]))
  }

  lemma {:induction false} SmoothRunKeepsLasts(s: State, events: seq<Event>)
    requires Sound(s) && LastsAreThere(s) && IsRun(s, events) && IsSmoothRun(s, events)
    ensures LastsAreThere(After(s, events)) && After(s, events).lost == s.lost
    decreases |events|
  {
    if events != [] {
      StepIsSound(s, events[0]);
      match events[0] {
        case Write(f) => SmoothWrite(s, f);
        case List(listing) => SmoothList(s, listing);
        case Drop => SmoothDrop(s);
        case Check => SmoothCheck(s);
        case Finish =>
      }
      SmoothRunKeepsLasts(Step(s, events[0]), events[1..]);
    }
  }

  /** As long as checks see all files and none fails, every file checked is reported, and only the last file of a run is
      ever dropped. */
  lemma {:induction false} OnlyLastsAreDropped(events: seq<Event>)
    requires IsRun(EMPTY_DIRECTORY, events) && IsSmoothRun(EMPTY_DIRECTORY, events)
    ensures var s := After(EMPTY_DIRECTORY, events); s.lost == {} && forall f :: f in s.dropped ==> IsRunsLast(s, f)
  {
    SmoothRunKeepsLasts(EMPTY_DIRECTORY, events);
  }

  /** A check that fails breaks both. Run 1 writes files 0, 1 and 2 and run 2 writes file 0. A check drops file 2 of run
      1, which was cut off, finds out about file 0, and fails at file 1. What it found out is lost, and the next check
      takes file 1, which was closed, for cut off. */
  lemma FailedCheckDropsAClosedFile() returns (events: seq<Event>)
    ensures IsRun(EMPTY_DIRECTORY, events) && File(1, 1) in After(EMPTY_DIRECTORY, events).dropped
    ensures HasLaterInRun(After(EMPTY_DIRECTORY, events).written, File(1, 1))
    ensures After(EMPTY_DIRECTORY, events).lost == {File(1, 0)} && After(EMPTY_DIRECTORY, events).reported == {}
  {
    events := FirstCheckFails();
    events := WriteFour(events);
  }

  /** So does a check that does not see all files: one that lists file 1 and the later run, and not file 2. */
  lemma MissedFileDropsAClosedFile() returns (events: seq<Event>)
    ensures IsRun(EMPTY_DIRECTORY, events) && forall i :: 0 <= i < |events| ==> !events[i].Fail?
    ensures var s := After(EMPTY_DIRECTORY, events);
            File(1, 1) in s.dropped && HasLaterInRun(s.written, File(1, 1)) && File(1, 2) in s.present
  {
    var s, partly := FourWritten(), List([File(1, 1), File(2, 0)]);
    assert Elements(partly.listing) <= s.present;
    ListingOfTwo();
    var listed := Step(s, partly);
    assert listed.written[2] == File(1, 2);
    events := Prepend(listed, Drop, []);
    events := Prepend(s, partly, events);
    events := WriteFour(events);
  }

  lemma WriteFour(events: seq<Event>) returns (all: seq<Event>)
    requires IsRun(FourWritten(), events)
    ensures IsRun(EMPTY_DIRECTORY, all) && After(EMPTY_DIRECTORY, all) == After(FourWritten(), events)
    ensures (forall i :: 0 <= i < |events| ==> !events[i].Fail?) ==> forall i :: 0 <= i < |all| ==> !all[i].Fail?
  {
    var f, g, h, latest := File(1, 0), File(1, 1), File(1, 2), File(2, 0);
    var one, two := Step(EMPTY_DIRECTORY, Write(f)), Step(Step(EMPTY_DIRECTORY, Write(f)), Write(g));
    var three := Step(two, Write(h));
    assert Step(three, Write(latest)) == FourWritten();
    all := Prepend(three, Write(latest), events);
    all := Prepend(two, Write(h), all);
    all := Prepend(one, Write(g), all);
    all := Prepend(EMPTY_DIRECTORY, Write(f), all);
  }

  function FourWritten(): State {
    var all := [File(1, 0), File(1, 1), File(1, 2), File(2, 0)];
    State(all, {File(1, 0), File(1, 1), File(1, 2), File(2, 0)}, {}, {}, {}, {}, Idle)
  }

  function AfterTheFailure(): State {
    FourWritten().(present := {File(1, 1), File(2, 0)}, dropped := {File(1, 2)}, lost := {File(1, 0)})
  }

  lemma FirstCheckFails() returns (events: seq<Event>)
    ensures IsRun(FourWritten(), events)
    ensures var s := After(FourWritten(), events);
            File(1, 1) in s.dropped && HasLaterInRun(s.written, File(1, 1)) && s.lost == {File(1, 0)} && s.reported == {}
  {
    events := SecondCheckDrops();
    var listed, first := FirstListing();
    OneIsChecked(listed);
    events := Prepend(Step(Step(listed, Drop), Check), Fail(false), events);
    events := Prepend(Step(listed, Drop), Check, events);
    events := Prepend(listed, Drop, events);
    events := Prepend(FourWritten(), first, events);
  }

  ghost predicate IsListed(listed: State) {
    && listed.phase.Working?
    && listed.phase.cutOff == [File(1, 2)]
    && listed.phase.closed == [File(1, 0), File(1, 1)]
    && listed == FourWritten().(phase := listed.phase)
  }

  lemma FirstListing() returns (listed: State, first: Event)
    ensures Possible(FourWritten(), first) && listed == Step(FourWritten(), first) && IsListed(listed)
  {
    first := List([File(1, 0), File(1, 1), File(1, 2), File(2, 0)]);
    assert Elements(first.listing) == FourWritten().present;
    ListingOfFour();
    listed := Step(FourWritten(), first);
  }

  lemma OneIsChecked(listed: State)
    requires IsListed(listed)
    ensures Possible(Step(listed, Drop), Check)
    ensures Step(Step(Step(listed, Drop), Check), Fail(false)) == AfterTheFailure()
  {
    assert FourWritten().present - {File(1, 2)} - {File(1, 0)} == AfterTheFailure().present;
  }

  lemma SecondCheckDrops() returns (events: seq<Event>)
    ensures IsRun(AfterTheFailure(), events)
    ensures var s := After(AfterTheFailure(), events);
            File(1, 1) in s.dropped && HasLaterInRun(s.written, File(1, 1)) && s.lost == {File(1, 0)} && s.reported == {}
  {
    var s, second := AfterTheFailure(), List([File(1, 1), File(2, 0)]);
    assert Elements(second.listing) == s.present;
    ListingOfTwo();
    var listed := Step(s, second);
    var dropped := Step(listed, Drop);
    assert dropped.written[2] == File(1, 2);
    events := Prepend(listed, Drop, []);
    events := Prepend(s, second, events);
  }

  lemma Prepend(s: State, e: Event, events: seq<Event>) returns (more: seq<Event>)
    requires Possible(s, e) && IsRun(Step(s, e), events)
    ensures IsRun(s, more) && After(s, more) == After(Step(s, e), events) && more == [e] + events
  {
    more := [e] + events;
    assert more[1..] == events;
  }

  lemma ListingOfFour()
    ensures var files := Sort([File(1, 0), File(1, 1), File(1, 2), File(2, 0)]);
            CutOff(files, |files|) == [File(1, 2)] && Closed(files, |files|) == [File(1, 0), File(1, 1)]
  {
  }

  lemma ListingOfTwo()
    ensures var files := Sort([File(1, 1), File(2, 0)]);
            CutOff(files, |files|) == [File(1, 1)]
  {
  }
}
