/** The recording directory of a row, crates/calliope-cli/src/canary/recording.rs: every run of the row writes files
    `<run>-<index>.mp4`, and a check looks at each file that is closed. */
module Recordings {
  import opened Prelude

  datatype File = File(run: nat, index: nat)

  predicate Before(f: File, g: File) {
    f.run < g.run || (f.run == g.run && f.index < g.index)
  }

  ghost predicate Ascending(files: seq<File>) {
    forall i, j :: 0 <= i < j < |files| ==> Before(files[i], files[j])
  }

  function Elements<T>(s: seq<T>): set<T> {
    set x | x in s
  }

  // ----- sorting a listing -----

  function Insert(f: File, sorted: seq<File>): seq<File> {
    if sorted == [] then [f]
    else if Before(f, sorted[0]) then [f] + sorted
    else [sorted[0]] + Insert(f, sorted[1..])
  }

  function Sort(listing: seq<File>): seq<File> {
    if listing == [] then [] else Insert(listing[0], Sort(listing[1..]))
  }

  lemma {:induction false} InsertIsAscending(f: File, sorted: seq<File>)
    requires Ascending(sorted) && f !in sorted
    ensures Ascending(Insert(f, sorted)) && |Insert(f, sorted)| == |sorted| + 1
    ensures forall g :: g in Insert(f, sorted) <==> g == f || g in sorted
  {
    if sorted != [] && !Before(f, sorted[0]) {
      var rest := sorted[1..];
      InsertIsAscending(f, rest);
      assert sorted == [sorted[0]] + rest;
      forall g | g in Insert(f, rest)
        ensures Before(sorted[0], g)
      {
        if g != f {
          var i :| 0 <= i < |rest| && rest[i] == g;
          assert sorted[i + 1] == g;
        }
      }
    }
  }

  ghost predicate NoRepeats<T>(s: seq<T>) {
    forall i, j :: 0 <= i < j < |s| ==> s[i] != s[j]
  }

  lemma {:induction false} SortIsAscending(listing: seq<File>)
    requires NoRepeats(listing)
    ensures Ascending(Sort(listing)) && |Sort(listing)| == |listing|
    ensures forall f :: f in Sort(listing) <==> f in listing
  {
    if listing != [] {
      SortIsAscending(listing[1..]);
      InsertIsAscending(listing[0], Sort(listing[1..]));
    }
  }

  lemma AscendingHasNoRepeats(files: seq<File>)
    requires Ascending(files)
    ensures NoRepeats(files)
  {
    forall i, j | 0 <= i < j < |files|
      ensures files[i] != files[j]
    {
      assert Before(files[i], files[j]);
    }
  }

  // ----- which files are closed -----

  /** No file of the run comes after it. */
  predicate IsNewestOfRun(files: seq<File>, i: nat)
    requires i < |files|
  {
    i + 1 == |files| || files[i + 1].run != files[i].run
  }

  function LatestRun(files: seq<File>): nat
    requires files != []
  {
    files[|files| - 1].run
  }

  /** The files among the first n that a later one of their run follows. */
  function Closed(files: seq<File>, n: nat): seq<File>
    requires n <= |files|
  {
    if n == 0 then []
    else if IsNewestOfRun(files, n - 1) then Closed(files, n - 1)
    else Closed(files, n - 1) + [files[n - 1]]
  }

  /** The newest files of runs before the latest, among the first n. */
  function CutOff(files: seq<File>, n: nat): seq<File>
    requires n <= |files|
  {
    if n == 0 then []
    else if IsNewestOfRun(files, n - 1) && files[n - 1].run != LatestRun(files) then CutOff(files, n - 1) + [files[n - 1]]
    else CutOff(files, n - 1)
  }

  ghost predicate HasLaterInRun(files: seq<File>, f: File) {
    exists g :: g in files && g.run == f.run && Before(f, g)
  }

  ghost predicate HasLaterRun(files: seq<File>, f: File) {
    exists g :: g in files && g.run > f.run
  }

  lemma NewestHasNoLater(files: seq<File>, i: nat)
    requires Ascending(files) && i < |files|
    ensures IsNewestOfRun(files, i) <==> !HasLaterInRun(files, files[i])
  {
    if i + 1 < |files| {
      assert Before(files[i], files[i + 1]) && files[i + 1] in files;
      forall j | i < j < |files|
        ensures files[j].run >= files[i + 1].run
      {
        assert i + 1 == j || Before(files[i + 1], files[j]);
      }
    }
    assert forall j :: 0 <= j < i ==> Before(files[j], files[i]);
    forall g | g in files && Before(files[i], g)
      ensures exists j :: i < j < |files| && files[j] == g
    {
      var j :| 0 <= j < |files| && files[j] == g;
    }
  }

  lemma LaterRunIsThere(files: seq<File>, i: nat)
    requires Ascending(files) && i < |files|
    ensures files[i].run != LatestRun(files) <==> HasLaterRun(files, files[i])
  {
    var last := files[|files| - 1];
    assert last in files && (i == |files| - 1 || Before(files[i], last));
    if g :| g in files && g.run > files[i].run {
      var j :| 0 <= j < |files| && files[j] == g;
      assert j == |files| - 1 || Before(files[j], last);
    }
  }

  /** Closed files are those with a later one in their run. */
  lemma {:induction false} ClosedHaveALater(files: seq<File>, n: nat, f: File)
    requires Ascending(files) && n <= |files|
    ensures f in Closed(files, n) <==> f in files[..n] && HasLaterInRun(files, f)
  {
    if n > 0 {
      ClosedHaveALater(files, n - 1, f);
      NewestHasNoLater(files, n - 1);
      assert files[..n] == files[..n - 1] + [files[n - 1]];
    }
  }

  /** Cut off files are the last of their run, and there is a later run. */
  lemma {:induction false} CutOffAreLastOfDeadRuns(files: seq<File>, n: nat, f: File)
    requires Ascending(files) && n <= |files|
    ensures f in CutOff(files, n) <==> f in files[..n] && !HasLaterInRun(files, f) && HasLaterRun(files, f)
  {
    if n > 0 {
      CutOffAreLastOfDeadRuns(files, n - 1, f);
      NewestHasNoLater(files, n - 1);
      LaterRunIsThere(files, n - 1);
      assert files[..n] == files[..n - 1] + [files[n - 1]];
    }
  }

  /** Each file is in one of the two lists, save the newest one of all. */
  lemma {:induction false} AllButTheNewest(files: seq<File>, f: File)
    requires Ascending(files) && f in files
    ensures !(f in Closed(files, |files|) && f in CutOff(files, |files|))
    ensures f !in Closed(files, |files|) && f !in CutOff(files, |files|) <==> f == files[|files| - 1]
  {
    ClosedHaveALater(files, |files|, f);
    CutOffAreLastOfDeadRuns(files, |files|, f);
    assert files[..|files|] == files;
    var i :| 0 <= i < |files| && files[i] == f;
    LaterRunIsThere(files, i);
    NewestHasNoLater(files, i);
    if i + 1 < |files| {
      assert Before(f, files[|files| - 1]);
    }
    if f == files[|files| - 1] {
      assert !HasLaterRun(files, f);
    } else if f.run == LatestRun(files) {
      assert HasLaterInRun(files, f);
    }
  }

  lemma {:induction false} ClosedIsAscending(files: seq<File>, n: nat)
    requires Ascending(files) && n <= |files|
    ensures Ascending(Closed(files, n)) && forall f :: f in Closed(files, n) ==> f in files[..n]
  {
    if n > 0 {
      ClosedIsAscending(files, n - 1);
      ComesBefore(files, n - 1);
      assert files[..n] == files[..n - 1] + [files[n - 1]];
    }
  }

  lemma {:induction false} CutOffIsAscending(files: seq<File>, n: nat)
    requires Ascending(files) && n <= |files|
    ensures Ascending(CutOff(files, n)) && forall f :: f in CutOff(files, n) ==> f in files[..n]
  {
    if n > 0 {
      CutOffIsAscending(files, n - 1);
      ComesBefore(files, n - 1);
      assert files[..n] == files[..n - 1] + [files[n - 1]];
    }
  }

  lemma ComesBefore(files: seq<File>, n: nat)
    requires Ascending(files) && n < |files|
    ensures forall f :: f in files[..n] ==> Before(f, files[n])
  {
  }

  // ----- the checks of a row -----

  datatype Checked = Checked(file: File, failure: Option<string>)

  /** What a check reports, given how each file fares. */
  function Reports(closed: seq<File>, failure: File -> Option<string>): (r: seq<Checked>)
    ensures |r| == |closed|
  {
    seq(|closed|, i requires 0 <= i < |closed| => Checked(closed[i], failure(closed[i])))
  }

  ghost predicate Lists(listing: seq<File>, dir: set<File>) {
    NoRepeats(listing) && forall f :: f in listing <==> f in dir
  }

  class RecordingRow {
    var dir: set<File>
    var failed: set<File>
    var lastClosed: nat

    constructor (now: nat)
      ensures dir == {} && failed == {} && lastClosed == now
    {
      dir, failed, lastClosed := {}, {}, now;
    }

    /** The closed files, oldest first. A file that a run which has ended left open is removed. */
    method ClosedFiles(listing: seq<File>) returns (closed: seq<File>)
      requires Lists(listing, dir)
      modifies this`dir
      ensures var files := Sort(listing);
              closed == Closed(files, |files|) && dir == old(dir) - Elements(CutOff(files, |files|))
    {
      var files := Sort(listing);
      closed := [];
      for position := 0 to |files|
        invariant closed == Closed(files, position)
        invariant dir == old(dir) - Elements(CutOff(files, position))
      {
        var newestOfRun := position + 1 == |files| || files[position + 1].run != files[position].run;
        if !newestOfRun {
          closed := closed + [files[position]];
        } else if files[position].run != files[|files| - 1].run {
          dir := dir - {files[position]};
        }
      }
    }

    /** Checks every closed file once. A file that passes is removed, one that fails is moved away. While nothing is
        written, the newest file of all is the one that stays. */
    method CheckClosedFiles(now: nat, listing: seq<File>, failure: File -> Option<string>) returns (checked: seq<Checked>)
      requires Lists(listing, dir)
      modifies this
      ensures var files := Sort(listing);
              && checked == Reports(Closed(files, |files|), failure)
              && dir == (if files == [] then {} else {files[|files| - 1]})
              && failed == old(failed) + (set f | f in Closed(files, |files|) && failure(f).Some?)
              && lastClosed == if Closed(files, |files|) == [] then old(lastClosed) else now
    {
      ghost var files := Sort(listing);
      var closed := ClosedFiles(listing);
      checked := [];
      for i := 0 to |closed|
        invariant checked == Reports(closed[..i], failure)
        invariant dir == old(dir) - Elements(CutOff(files, |files|)) - Elements(closed[..i])
        invariant failed == old(failed) + (set f | f in closed[..i] && failure(f).Some?)
        invariant lastClosed == if i == 0 then old(lastClosed) else now
      {
        lastClosed := now;
        dir := dir - {closed[i]};
        if failure(closed[i]).Some? {
          failed := failed + {closed[i]};
        }
        checked := checked + [Checked(closed[i], failure(closed[i]))];
        assert closed[..i + 1] == closed[..i] + [closed[i]];
      }
      assert closed[..|closed|] == closed;
      OnlyTheNewestStays(listing, old(dir));
    }
  }

  lemma {:induction false} OnlyTheNewestStays(listing: seq<File>, dir: set<File>)
    requires Lists(listing, dir)
    ensures var files := Sort(listing);
            dir - Elements(CutOff(files, |files|)) - Elements(Closed(files, |files|))
            == if files == [] then {} else {files[|files| - 1]}
  {
    var files := Sort(listing);
    SortIsAscending(listing);
    forall f | f in dir
      ensures f !in Closed(files, |files|) && f !in CutOff(files, |files|) <==> f == files[|files| - 1]
    {
      AllButTheNewest(files, f);
    }
  }
}
