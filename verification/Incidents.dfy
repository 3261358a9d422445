/** Open incidents and their closing, crates/calliope-cli/src/canary/record.rs. */
module Incidents {
  import opened Prelude
  import opened DayLogs

  datatype Tier = SelfHosted | Public | Faulted

  datatype Cause =
    | Exit(code: int)
    | Signal(signal: int)
    | Stall(secs: nat)
    | SpawnFailed(message: string)
    | Content(mismatched: nat, skipped: nat)
    | Timestamps(backward: nat, forwardJumps: nat)
    | MemoryGrowth(kibPerHour: real)
    | NoRecovery(fault: string)
    | Recording(file: Option<string>, failure: string)
  {
    function Kind(): IncidentKind {
      match this
      case Exit(_) | Signal(_) | Stall(_) | SpawnFailed(_) => KindDown
      case Content(_, _) => KindContent
      case Timestamps(_, _) => KindTimestamps
      case MemoryGrowth(_) => KindMemoryGrowth
      case NoRecovery(_) => KindNoRecovery
      case Recording(_, _) => KindRecording
    }

    /** The pairs of causes that fold; any other pair is a programming error. */
    predicate Absorbs(later: Cause) {
      || (Content? && later.Content?)
      || (Timestamps? && later.Timestamps?)
      || (MemoryGrowth? && later.MemoryGrowth?)
      || (Recording? && later.Recording?)
    }

    /** Both findings in one: counts add up, the greater growth and the first file stay. */
    function Absorb(later: Cause): (folded: Cause)
      requires Absorbs(later)
      ensures folded.Kind() == Kind()
    {
      match this
      case Content(m, s) => Content(m + later.mismatched, s + later.skipped)
      case Timestamps(b, f) => Timestamps(b + later.backward, f + later.forwardJumps)
      case MemoryGrowth(k) => MemoryGrowth(if k >= later.kibPerHour then k else later.kibPerHour)
      case Recording(_, _) => this
    }
  }

  datatype IncidentKind = KindDown | KindContent | KindTimestamps | KindMemoryGrowth | KindNoRecovery | KindRecording

  /** The kinds that sample checks track. */
  predicate IsTracked(kind: IncidentKind) {
    kind == KindContent || kind == KindTimestamps || kind == KindMemoryGrowth || kind == KindRecording
  }

  /** Two causes of one kind fold exactly when the kind is one that samples track. */
  lemma TrackedKindsFold(cause: Cause, later: Cause)
    requires cause.Kind() == later.Kind()
    ensures cause.Absorbs(later) <==> IsTracked(cause.Kind())
  {
  }

  /** `serial` tells incidents apart: the id repeats when two open in the same second. */
  datatype Incident = Incident(
    serial: nat,
    id: string,
    pipeline: string,
    tier: Tier,
    start: nat,
    end: Option<nat>,
    cause: Cause,
    restarts: nat,
    lastError: Option<string>,
    stderr: Option<string>)
  {
    predicate Is(pipeline: string, kind: IncidentKind) {
      this.pipeline == pipeline && cause.Kind() == kind
    }
  }

  // ----- lists of open incidents -----

  function Position(open: seq<Incident>, pipeline: string, kind: IncidentKind): (i: Option<nat>)
    ensures i.Some? ==> i.value < |open| && open[i.value].Is(pipeline, kind)
    ensures i.Some? ==> forall k :: 0 <= k < i.value ==> !open[k].Is(pipeline, kind)
    ensures i.None? ==> forall k :: 0 <= k < |open| ==> !open[k].Is(pipeline, kind)
  {
    if open == [] then None
    else if open[0].Is(pipeline, kind) then Some(0)
    else
      var rest := Position(open[1..], pipeline, kind);
      if rest.Some? then Some(rest.value + 1) else None
  }

  function Get(open: seq<Incident>, pipeline: string, kind: IncidentKind): Option<Incident> {
    var i := Position(open, pipeline, kind);
    if i.Some? then Some(open[i.value]) else None
  }

  /** The incidents of any other pipeline or kind. */
  function Others(open: seq<Incident>, pipeline: string, kind: IncidentKind): (r: seq<Incident>)
    ensures forall x :: x in r <==> x in open && !x.Is(pipeline, kind)
  {
    if open == [] then []
    else (if open[0].Is(pipeline, kind) then [] else [open[0]]) + Others(open[1..], pipeline, kind)
  }

  function Without(open: seq<Incident>, i: nat): (r: seq<Incident>)
    requires i < |open|
    ensures |r| == |open| - 1
    ensures forall x :: x in open ==> x in r || x == open[i]
    ensures forall x :: x in r ==> x in open
  {
    assert open == open[..i] + [open[i]] + open[i + 1..];
    open[..i] + open[i + 1..]
  }

  // ----- memory and disk -----

  const INCIDENTS_PREFIX := "incidents"

  /** All appends of closed incidents, in order, with how far each one got. */
  type Log = seq<Entry<Incident>>

  function ClosedEntry(incident: Incident, now: nat, append: Outcome): Entry<Incident> {
    Entry(INCIDENTS_PREFIX, now, incident.(end := Some(now)), append)
  }

  /** What the process holds, what the open file holds (nothing when there is none yet), and the log. */
  datatype Books = Books(open: seq<Incident>, file: seq<Incident>, log: Log) {
    /** Writes a partial file and renames it over the open file: all of it or none. */
    function Save(saveOk: bool): (Books, bool) {
      (if saveOk then this.(file := open) else this, saveOk)
    }

    function Put(incident: Incident, saveOk: bool): (Books, bool) {
      this.(open := Others(open, incident.pipeline, incident.cause.Kind()) + [incident]).Save(saveOk)
    }

    /** The append comes first, and `append` says how far it got. */
    function Close(pipeline: string, kind: IncidentKind, now: nat, append: Outcome, saveOk: bool): (Books, bool) {
      var i := Position(open, pipeline, kind);
      if i.None? then (this, true)
      else
        var closed := this.(open := Without(open, i.value), log := log + [ClosedEntry(open[i.value], now, append)]);
        if append == Written then closed.Save(saveOk) else (closed, false)
    }

    /** What a sample does to the incident of its kind: a finding puts it, a clean sample closes it. */
    function Track(opening: Incident, finding: Option<Cause>, clean: bool, now: nat, append: Outcome,
                   saveOk: bool): (Books, bool)
      requires IsTracked(opening.cause.Kind())
      requires finding.Some? ==> finding.value.Kind() == opening.cause.Kind()
    {
      var pipeline, kind := opening.pipeline, opening.cause.Kind();
      if finding.None? then (if clean then Close(pipeline, kind, now, append, saveOk) else (this, true))
      else
        var found := Get(open, pipeline, kind);
        if found.None? then Put(opening.(cause := finding.value), saveOk)
        else
          TrackedKindsFold(found.value.cause, finding.value);
          Put(found.value.(cause := found.value.cause.Absorb(finding.value)), saveOk)
    }

    /** Closes what no configured pipeline could close; stops at the first disk error. */
    function CloseEach(keys: seq<(string, IncidentKind)>, now: nat, disk: nat -> (Outcome, bool)): (Books, bool) {
      if keys == [] then (this, true)
      else
        var (before, ok) := CloseEach(keys[..|keys| - 1], now, disk);
        var last := keys[|keys| - 1];
        if ok then before.Close(last.0, last.1, now, disk(|keys| - 1).0, disk(|keys| - 1).1) else (before, false)
    }

    function CloseUnconfigured(pipelines: set<string>, now: nat, disk: nat -> (Outcome, bool)): (Books, bool) {
      CloseEach(Unconfigured(open, pipelines), now, disk)
    }
  }

  function Unconfigured(open: seq<Incident>, pipelines: set<string>): (r: seq<(string, IncidentKind)>)
    ensures forall k :: k in r <==> exists x :: x in open && x.pipeline !in pipelines && k == (x.pipeline, x.cause.Kind())
  {
    if open == [] then []
    else
      (if open[0].pipeline !in pipelines then [(open[0].pipeline, open[0].cause.Kind())] else [])
      + Unconfigured(open[1..], pipelines)
  }

  class Disk {
    var file: seq<Incident>
    var log: Log

    constructor ()
      ensures file == [] && log == []
    {
      file, log := [], [];
    }
  }

  class OpenIncidents {
    const disk: Disk
    var open: seq<Incident>

    ghost function Model(): Books
      reads this, disk
    {
      Books(open, disk.file, disk.log)
    }

    constructor (disk: Disk)
      ensures this.disk == disk && Model() == Books(disk.file, disk.file, disk.log)
    {
      this.disk := disk;
      open := disk.file;
    }

    /** The store of a starting canary: none if the open file is there and cannot be read, or does not parse. */
    static method Load(disk: Disk, readable: bool) returns (store: OpenIncidents?)
      ensures store != null <==> readable
      ensures store != null ==> fresh(store) && store.disk == disk && store.Model() == Books(disk.file, disk.file, disk.log)
    {
      store := null;
      if readable {
        store := new OpenIncidents(disk);
      }
    }

    method Save(saveOk: bool) returns (ok: bool)
      modifies disk`file
      ensures (Model(), ok) == old(Model()).Save(saveOk)
    {
      if saveOk {
        disk.file := open;
      }
      ok := saveOk;
    }

    method Put(incident: Incident, saveOk: bool) returns (ok: bool)
      modifies this`open, disk`file
      ensures (Model(), ok) == old(Model()).Put(incident, saveOk)
    {
      open := Others(open, incident.pipeline, incident.cause.Kind());
      open := open + [incident];
      ok := Save(saveOk);
    }

    method Close(pipeline: string, kind: IncidentKind, now: nat, append: Outcome, saveOk: bool) returns (ok: bool)
      modifies this`open, disk
      ensures (Model(), ok) == old(Model()).Close(pipeline, kind, now, append, saveOk)
    {
      var position := Position(open, pipeline, kind);
      if position.None? {
        return true;
      }
      var incident := open[position.value];
      open := Without(open, position.value);
      disk.log := disk.log + [ClosedEntry(incident, now, append)];
      if append != Written {
        return false;
      }
      ok := Save(saveOk);
    }

    // `opening` is the incident a finding opens when none is open yet
    method Track(opening: Incident, finding: Option<Cause>, clean: bool, now: nat, append: Outcome, saveOk: bool)
      returns (ok: bool)
      requires IsTracked(opening.cause.Kind())
      requires finding.Some? ==> finding.value.Kind() == opening.cause.Kind()
      modifies this`open, disk
      ensures (Model(), ok) == old(Model()).Track(opening, finding, clean, now, append, saveOk)
    {
      if finding.None? {
        ok := true;
        if clean {
          ok := Close(opening.pipeline, opening.cause.Kind(), now, append, saveOk);
        }
        return;
      }
      var found := Get(open, opening.pipeline, opening.cause.Kind());
      var incident := opening.(cause := finding.value);
      if found.Some? {
        TrackedKindsFold(found.value.cause, finding.value);
        incident := found.value.(cause := found.value.cause.Absorb(finding.value));
      }
      ok := Put(incident, saveOk);
    }

    method CloseUnconfigured(pipelines: set<string>, now: nat, disk: nat -> (Outcome, bool)) returns (ok: bool)
      modifies this`open, this.disk
      ensures (Model(), ok) == old(Model()).CloseUnconfigured(pipelines, now, disk)
    {
      var keys := Unconfigured(open, pipelines);
      ghost var start := Model();
      ok := true;
      for k := 0 to |keys|
        invariant ok && (Model(), ok) == start.CloseEach(keys[..k], now, disk)
      {
        ClosedOneMore(start, keys, k, now, disk);
        ok := Close(keys[k].0, keys[k].1, now, disk(k).0, disk(k).1);
        if !ok {
          ClosingStopped(start, keys, k + 1, now, disk);
          return;
        }
      }
      assert keys[..|keys|] == keys;
    }
  }

  lemma {:induction false} ClosedOneMore(b: Books, keys: seq<(string, IncidentKind)>, k: nat, now: nat,
                                         disk: nat -> (Outcome, bool))
    requires k < |keys|
    ensures var (before, ok) := b.CloseEach(keys[..k], now, disk);
            b.CloseEach(keys[..k + 1], now, disk)
            == if ok then before.Close(keys[k].0, keys[k].1, now, disk(k).0, disk(k).1) else (before, false)
  {
    assert keys[..k + 1][..k] == keys[..k];
  }

  /** Once a close failed, the keys after it are not looked at. */
  lemma {:induction false} ClosingStopped(b: Books, keys: seq<(string, IncidentKind)>, k: nat, now: nat,
                                          disk: nat -> (Outcome, bool))
    requires k <= |keys| && !b.CloseEach(keys[..k], now, disk).1
    ensures b.CloseEach(keys, now, disk) == b.CloseEach(keys[..k], now, disk)
    decreases |keys|
  {
    if k < |keys| {
      var front := keys[..|keys| - 1];
      assert front[..k] == keys[..k];
      ClosingStopped(b, front, k, now, disk);
    } else {
      assert keys[..k] == keys;
    }
  }
}
