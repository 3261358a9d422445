/** The fault schedule, crates/calliope-cli/src/canary/schedule.rs: faults and clean windows alternate round a cycle that
    is anchored at the unix epoch. */
module Schedules {
  import opened Prelude

  datatype FaultKind = Netem | Cap | Restart

  datatype Fault = Fault(kind: FaultKind, name: string)

  /** A window without a fault is clean. */
  datatype Window = Window(secs: nat, fault: Option<Fault>)

  datatype RecoveryWindow = RecoveryWindow(fault: Fault, start: nat, end: nat)

  type Windows = seq<Window>

  // ----- which schedules are accepted -----

  function After(windows: Windows, i: nat): (j: nat)
    requires i < |windows|
    ensures j < |windows|
  {
    if i + 1 < |windows| then i + 1 else 0
  }

  function BeforeIndex(windows: Windows, i: nat): (j: nat)
    requires i < |windows|
    ensures j < |windows| && After(windows, j) == i
  {
    if i == 0 then |windows| - 1 else i - 1
  }

  /** A window and the one after it are a fault and clean, or clean and a fault. */
  predicate DiffersFromNext(windows: Windows, i: nat)
    requires i < |windows|
  {
    windows[i].fault.Some? != windows[After(windows, i)].fault.Some?
  }

  ghost predicate AlternatesBelow(windows: Windows, n: nat)
    requires n <= |windows|
  {
    forall i :: 0 <= i < n ==> DiffersFromNext(windows, i)
  }

  ghost predicate Alternates(windows: Windows) {
    AlternatesBelow(windows, |windows|)
  }

  predicate IsNamed(window: Window, name: string) {
    window.fault.Some? && window.fault.value.name == name
  }

  ghost predicate Named(windows: Windows, n: nat, name: string)
    requires n <= |windows|
  {
    exists i :: 0 <= i < n && IsNamed(windows[i], name)
  }

  /** Each fault has a name no earlier one has. */
  ghost predicate NamesDiffer(windows: Windows, n: nat)
    requires n <= |windows|
  {
    forall i :: 0 <= i < n && windows[i].fault.Some? ==> !Named(windows, i, windows[i].fault.value.name)
  }

  ghost predicate Valid(windows: Windows) {
    && windows != []
    && (forall i :: 0 <= i < |windows| ==> windows[i].secs > 0)
    && Alternates(windows)
    && NamesDiffer(windows, |windows|)
  }

  datatype ScheduleError = NoWindows | SameKind(window: nat) | NameTwice(name: string)

  /** What a complaint about a schedule says is so. */
  ghost predicate IsRight(windows: Windows, error: ScheduleError) {
    match error
    case NoWindows => windows == []
    case SameKind(number) =>
      && 1 <= number <= |windows|
      && AlternatesBelow(windows, number - 1)
      && !DiffersFromNext(windows, number - 1)
    case NameTwice(name) =>
      && Alternates(windows)
      && exists j :: 0 <= j < |windows| && IsNamed(windows[j], name) && NamesDiffer(windows, j) && Named(windows, j, name)
  }

  /** The checks on a schedule once its windows are read, each of which lasts at least a second. */
  method Check(windows: Windows) returns (error: Option<ScheduleError>)
    requires forall i :: 0 <= i < |windows| ==> windows[i].secs > 0
    ensures error.None? <==> Valid(windows)
    ensures error.Some? ==> IsRight(windows, error.value)
  {
    if windows == [] {
      return Some(NoWindows);
    }
    for index := 0 to |windows|
      invariant AlternatesBelow(windows, index)
    {
      var next := windows[(index + 1) % |windows|];
      RoundTheEnd(windows, index);
      if windows[index].fault.Some? == next.fault.Some? {
        assert !DiffersFromNext(windows, index);
        return Some(SameKind(index + 1));
      }
    }
    var names: set<string> := {};
    for index := 0 to |windows|
      invariant forall name :: name in names <==> Named(windows, index, name)
      invariant NamesDiffer(windows, index)
    {
      if windows[index].fault.Some? {
        var name := windows[index].fault.value.name;
        if name in names {
          assert IsNamed(windows[index], name) && Named(windows, index, name);
          return Some(NameTwice(name));
        }
        names := names + {name};
      }
      NamedOneMore(windows, index);
    }
    error := None;
  }

  lemma NamedOneMore(windows: Windows, n: nat)
    requires n < |windows|
    ensures forall name :: Named(windows, n + 1, name) <==> Named(windows, n, name) || IsNamed(windows[n], name)
  {
    forall name | IsNamed(windows[n], name)
      ensures Named(windows, n + 1, name)
    {
    }
  }

  lemma RoundTheEnd(windows: Windows, i: nat)
    requires i < |windows|
    ensures (i + 1) % |windows| == After(windows, i)
  {
    if i + 1 < |windows| {
      ModIs(i + 1, 0, i + 1, |windows|);
    } else {
      ModIs(i + 1, 1, 0, |windows|);
    }
  }

  // ----- the anchored cycles -----

  /** Seconds from the start of a cycle to its i-th window. */
  function Offset(windows: Windows, i: nat): nat
    requires i <= |windows|
  {
    if i == 0 then 0 else Offset(windows, i - 1) + windows[i - 1].secs
  }

  function CycleSecs(windows: Windows): nat {
    Offset(windows, |windows|)
  }

  /** A window of one of the cycles since the epoch. */
  datatype Slot = Slot(cycle: nat, index: nat)

  predicate IsSlot(windows: Windows, s: Slot) {
    s.index < |windows|
  }

  predicate IsClean(windows: Windows, s: Slot) {
    IsSlot(windows, s) && windows[s.index].fault.None?
  }

  /** When a cycle starts. */
  function Anchor(cycle: nat, secs: nat): nat {
    cycle * secs
  }

  lemma AnchorsAreACycleApart(cycle: nat, secs: nat)
    ensures Anchor(cycle + 1, secs) == Anchor(cycle, secs) + secs
  {
  }

  lemma {:induction false} LaterCyclesStartLater(cycle: nat, later: nat, secs: nat)
    requires cycle < later
    ensures Anchor(cycle, secs) + secs <= Anchor(later, secs)
    decreases later
  {
    AnchorsAreACycleApart(later - 1, secs);
    if cycle + 1 < later {
      LaterCyclesStartLater(cycle, later - 1, secs);
    }
  }

  lemma CycleOf(now: nat, secs: nat) returns (cycle: nat)
    requires secs > 0
    ensures now - now % secs == Anchor(cycle, secs) <= now < Anchor(cycle, secs) + secs
  {
    cycle := now / secs;
    assert now == cycle * secs + now % secs;
  }

  function StartOf(windows: Windows, s: Slot): nat
    requires IsSlot(windows, s)
  {
    Anchor(s.cycle, CycleSecs(windows)) + Offset(windows, s.index)
  }

  function EndOf(windows: Windows, s: Slot): nat
    requires IsSlot(windows, s)
  {
    StartOf(windows, s) + windows[s.index].secs
  }

  function Next(windows: Windows, s: Slot): (t: Slot)
    requires IsSlot(windows, s)
    ensures IsSlot(windows, t)
  {
    if s.index + 1 < |windows| then Slot(s.cycle, s.index + 1) else Slot(s.cycle + 1, 0)
  }

  predicate Earlier(s: Slot, t: Slot) {
    s.cycle < t.cycle || (s.cycle == t.cycle && s.index < t.index)
  }

  lemma NextStartsAtTheEnd(windows: Windows, s: Slot)
    requires IsSlot(windows, s)
    ensures StartOf(windows, Next(windows, s)) == EndOf(windows, s)
  {
    if s.index + 1 == |windows| {
      AnchorsAreACycleApart(s.cycle, CycleSecs(windows));
    }
  }

  /** The windows of all cycles fill the time from the epoch on without a gap, each as long as the schedule says. */
  lemma SlotsFillTime(windows: Windows, s: Slot)
    requires IsSlot(windows, s)
    ensures s == Slot(0, 0) ==> StartOf(windows, s) == 0
    ensures EndOf(windows, s) == StartOf(windows, s) + windows[s.index].secs
    ensures StartOf(windows, Next(windows, s)) == EndOf(windows, s)
    ensures Next(windows, s).index == (s.index + 1) % |windows|
  {
    NextStartsAtTheEnd(windows, s);
    assert Anchor(0, CycleSecs(windows)) == 0;
  }

  lemma {:induction false} OffsetsGrow(windows: Windows, i: nat, j: nat)
    requires i <= j <= |windows|
    ensures Offset(windows, i) <= Offset(windows, j)
  {
    if i < j {
      OffsetsGrow(windows, i, j - 1);
    }
  }

  lemma EarlierEndsBefore(windows: Windows, s: Slot, t: Slot)
    requires IsSlot(windows, s) && IsSlot(windows, t) && Earlier(s, t)
    ensures EndOf(windows, s) <= StartOf(windows, t)
  {
    if s.cycle < t.cycle {
      OffsetsGrow(windows, s.index + 1, |windows|);
      LaterCyclesStartLater(s.cycle, t.cycle, CycleSecs(windows));
    } else {
      OffsetsGrow(windows, s.index + 1, t.index);
    }
  }

  // ----- the next recovery window -----

  /** The clean window of a slot, with the fault right before it. */
  function RecoveryOf(windows: Windows, s: Slot): RecoveryWindow
    requires Alternates(windows) && IsClean(windows, s)
  {
    var before := BeforeIndex(windows, s.index);
    assert DiffersFromNext(windows, before);
    RecoveryWindow(windows[before].fault.value, StartOf(windows, s), EndOf(windows, s))
  }

  /** What is said of a recovery window: when the clean window starts and ends, and the fault of the window right before
      it, which ends when it starts. */
  lemma RecoverySays(windows: Windows, s: Slot, before: Slot)
    requires Alternates(windows) && IsClean(windows, s) && IsSlot(windows, before)
    requires before.index == (s.index + |windows| - 1) % |windows|
    ensures var r := RecoveryOf(windows, s);
            && windows[before.index].fault == Some(r.fault)
            && r.start == StartOf(windows, s) && r.end == r.start + windows[s.index].secs
            && (Next(windows, before) == s ==> EndOf(windows, before) == r.start)
  {
    assert before.index == BeforeIndex(windows, s.index);
    assert DiffersFromNext(windows, before.index);
    NextStartsAtTheEnd(windows, before);
  }

  /** The clean window with the least end after `now`, over all cycles. */
  ghost predicate IsNextClean(windows: Windows, now: nat, s: Slot) {
    && IsClean(windows, s)
    && EndOf(windows, s) > now
    && forall t :: IsClean(windows, t) && EndOf(windows, t) > now ==> EndOf(windows, s) <= EndOf(windows, t)
  }

  /** Slots before `s`, as far as they are clean, ended by `now`. */
  ghost predicate PassedBy(windows: Windows, now: nat, s: Slot) {
    forall t :: IsClean(windows, t) && Earlier(t, s) ==> EndOf(windows, t) <= now
  }

  lemma FirstUnpassedIsNext(windows: Windows, now: nat, s: Slot)
    requires PassedBy(windows, now, s) && IsClean(windows, s) && EndOf(windows, s) > now
    ensures IsNextClean(windows, now, s)
  {
    forall t | IsClean(windows, t) && EndOf(windows, t) > now
      ensures EndOf(windows, s) <= EndOf(windows, t)
    {
      if t != s {
        assert Earlier(s, t);
        EarlierEndsBefore(windows, s, t);
      }
    }
  }

  lemma PassedOneMore(windows: Windows, now: nat, s: Slot)
    requires IsSlot(windows, s) && PassedBy(windows, now, s)
    requires IsClean(windows, s) ==> EndOf(windows, s) <= now
    ensures PassedBy(windows, now, Next(windows, s))
  {
    forall t | IsClean(windows, t) && Earlier(t, Next(windows, s))
      ensures EndOf(windows, t) <= now
    {
      assert t == s || Earlier(t, s);
    }
  }

  lemma EarlierCyclesPassed(windows: Windows, now: nat, cycle: nat)
    requires windows != [] && Anchor(cycle, CycleSecs(windows)) <= now
    ensures PassedBy(windows, now, Slot(cycle, 0))
  {
    forall t | IsClean(windows, t) && Earlier(t, Slot(cycle, 0))
      ensures EndOf(windows, t) <= now
    {
      EarlierEndsBefore(windows, t, Slot(cycle, 0));
    }
  }

  /** The first recovery window ending after `now`. The search starts in the cycle `now` falls in and looks at most at
      one window more than a cycle has. */
  method NextRecoveryWindow(windows: Windows, now: nat) returns (r: RecoveryWindow, ghost iterations: nat)
    requires Valid(windows)
    ensures exists s :: IsNextClean(windows, now, s) && r == RecoveryOf(windows, s)
    ensures iterations <= |windows| + 1
  {
    var cycleSecs := CycleSecs(windows);
    OffsetsGrow(windows, 1, |windows|);
    var start := now - now % cycleSecs;
    ghost var cycle := CycleOf(now, cycleSecs);
    ghost var slot := Slot(cycle, 0);
    EarlierCyclesPassed(windows, now, cycle);
    // a cycle that starts clean recovers from the fault that ended the one before
    var previousFault := windows[|windows| - 1].fault;
    var index := 0;
    iterations := 0;
    while true
      invariant IsSlot(windows, slot) && slot.index == index
      invariant start == StartOf(windows, slot)
      invariant PassedBy(windows, now, slot)
      invariant windows[index].fault.None? ==> previousFault == windows[BeforeIndex(windows, index)].fault
      invariant if slot.cycle == cycle then iterations == index
                else slot == Slot(cycle + 1, 0) && iterations == |windows| && windows[0].fault.None?
      decreases |windows| - iterations
    {
      var window := windows[index];
      var end := start + window.secs;
      iterations := iterations + 1;
      if window.fault.Some? {
        previousFault := window.fault;
      } else if end > now {
        FirstUnpassedIsNext(windows, now, slot);
        assert DiffersFromNext(windows, BeforeIndex(windows, index));
        return RecoveryWindow(previousFault.value, start, end), iterations;
      }
      PassedOneMore(windows, now, slot);
      NextStartsAtTheEnd(windows, slot);
      EndOfCycleIsLater(windows, now, cycle, slot);
      RoundTheEnd(windows, index);
      assert DiffersFromNext(windows, index);
      start := end;
      slot := Next(windows, slot);
      index := (index + 1) % |windows|;
    }
  }

  /** The last window of the cycle `now` falls in ends after `now`, so if the search leaves that cycle, the window it
      comes to is clean. */
  lemma EndOfCycleIsLater(windows: Windows, now: nat, cycle: nat, s: Slot)
    requires Valid(windows) && IsSlot(windows, s) && (s.cycle == cycle || s == Slot(cycle + 1, 0))
    requires Anchor(cycle, CycleSecs(windows)) <= now < Anchor(cycle, CycleSecs(windows)) + CycleSecs(windows)
    requires IsClean(windows, s) ==> EndOf(windows, s) <= now
    requires s.cycle == cycle + 1 ==> IsClean(windows, s)
    ensures s.cycle == cycle && (s.index + 1 == |windows| ==> windows[0].fault.None?)
  {
    if s.cycle == cycle + 1 {
      AnchorsAreACycleApart(cycle, CycleSecs(windows));
    } else if s.index + 1 == |windows| {
      assert DiffersFromNext(windows, s.index);
    }
  }

  // ----- every clean window, in order -----

  /** There is one next clean window. */
  lemma NextCleanIsUnique(windows: Windows, now: nat, s: Slot, t: Slot)
    requires Valid(windows) && IsNextClean(windows, now, s) && IsNextClean(windows, now, t)
    ensures s == t
  {
    if Earlier(s, t) {
      EarlierEndsBefore(windows, s, t);
    } else if Earlier(t, s) {
      EarlierEndsBefore(windows, t, s);
    }
  }

  lemma KindsAlternate(windows: Windows, s: Slot)
    requires Alternates(windows) && IsSlot(windows, s)
    ensures IsClean(windows, Next(windows, s)) <==> !IsClean(windows, s)
  {
    assert DiffersFromNext(windows, s.index);
  }

  /** The clean window after a clean one: the one after the fault in between. */
  function NextClean(windows: Windows, s: Slot): (t: Slot)
    requires Alternates(windows) && IsClean(windows, s)
    ensures IsClean(windows, t)
  {
    KindsAlternate(windows, s);
    KindsAlternate(windows, Next(windows, s));
    Next(windows, Next(windows, s))
  }

  /** No clean window comes between a clean one and the next. */
  lemma NoneInBetween(windows: Windows, s: Slot, u: Slot)
    requires Alternates(windows) && IsClean(windows, s) && IsClean(windows, u)
    ensures Earlier(s, NextClean(windows, s))
    ensures u == s || Earlier(u, s) || u == NextClean(windows, s) || Earlier(NextClean(windows, s), u)
  {
    KindsAlternate(windows, s);
  }

  /** Asking again at the end of a window moves on to the next clean one, none skipped or repeated. */
  lemma EndMovesOn(windows: Windows, s: Slot)
    requires Valid(windows) && IsClean(windows, s)
    ensures IsNextClean(windows, EndOf(windows, s), NextClean(windows, s))
    ensures Earlier(s, NextClean(windows, s))
  {
    var t := NextClean(windows, s);
    NoneInBetween(windows, s, t);
    forall u | IsClean(windows, u) && Earlier(u, t)
      ensures EndOf(windows, u) <= EndOf(windows, s)
    {
      NoneInBetween(windows, s, u);
      if u != s {
        EarlierEndsBefore(windows, u, s);
      }
    }
    EarlierEndsBefore(windows, s, t);
    FirstUnpassedIsNext(windows, EndOf(windows, s), t);
  }

  /** The clean window k steps on. */
  function Iterated(windows: Windows, s: Slot, k: nat): (t: Slot)
    requires Alternates(windows) && IsClean(windows, s)
    ensures IsClean(windows, t)
    decreases k
  {
    if k == 0 then s else Iterated(windows, NextClean(windows, s), k - 1)
  }

  /** Iterating from any clean window comes to every later one. */
  lemma {:induction false} EveryCleanIsVisited(windows: Windows, s: Slot, t: Slot) returns (k: nat)
    requires Alternates(windows) && IsClean(windows, s) && IsClean(windows, t) && (s == t || Earlier(s, t))
    ensures Iterated(windows, s, k) == t
    decreases t.cycle - s.cycle, |windows| - s.index
  {
    if s == t {
      k := 0;
    } else {
      var next := NextClean(windows, s);
      NoneInBetween(windows, s, t);
      var rest := EveryCleanIsVisited(windows, next, t);
      k := rest + 1;
    }
  }

  // ----- how long a faulted row can go without a frame -----

  /** The longest of the faults before i together with the clean window after it. */
  function LongestBelow(windows: Windows, n: nat): Option<nat>
    requires n <= |windows|
  {
    if n == 0 then None
    else
      var before, w := LongestBelow(windows, n - 1), windows[n - 1];
      if w.fault.None? then before
      else
        var both := w.secs + windows[After(windows, n - 1)].secs;
        Some(if before.Some? && before.value > both then before.value else both)
  }

  lemma {:induction false} LongestIsMaximal(windows: Windows, n: nat)
    requires n <= |windows|
    ensures LongestBelow(windows, n).None? <==> forall i :: 0 <= i < n ==> windows[i].fault.None?
    ensures forall i :: 0 <= i < n && windows[i].fault.Some? ==>
              && LongestBelow(windows, n).Some?
              && windows[i].secs + windows[After(windows, i)].secs <= LongestBelow(windows, n).value
    ensures LongestBelow(windows, n).Some? ==>
              exists i :: 0 <= i < n && windows[i].fault.Some?
                          && windows[i].secs + windows[After(windows, i)].secs == LongestBelow(windows, n).value
  {
    if n > 0 {
      LongestIsMaximal(windows, n - 1);
    }
  }

  function LongestFaultAndRecoverySecs(windows: Windows): nat
    requires Valid(windows)
  {
    LongestIsMaximal(windows, |windows|);
    assert DiffersFromNext(windows, 0);
    LongestBelow(windows, |windows|).value
  }

  /** From the start of a fault to the end of the clean window after it is never longer than the schedule's longest, and
      for one fault it is that long. */
  lemma LongestBoundsRecovery(windows: Windows, s: Slot)
    requires Valid(windows) && IsClean(windows, s)
    ensures windows[BeforeIndex(windows, s.index)].secs + (EndOf(windows, s) - StartOf(windows, s))
            <= LongestFaultAndRecoverySecs(windows)
    ensures exists i :: 0 <= i < |windows| && windows[After(windows, i)].fault.None? && windows[i].fault.Some?
                        && windows[i].secs + windows[After(windows, i)].secs == LongestFaultAndRecoverySecs(windows)
  {
    LongestIsMaximal(windows, |windows|);
    var before := BeforeIndex(windows, s.index);
    assert DiffersFromNext(windows, before);
    var i :| 0 <= i < |windows| && windows[i].fault.Some?
             && windows[i].secs + windows[After(windows, i)].secs == LongestFaultAndRecoverySecs(windows);
    assert DiffersFromNext(windows, i);
  }
}
