/** The pts of a decode against a reference's, crates/calliope-core/src/timestamps.rs. */
module TimestampComparisons {
  import opened Prelude
  import opened TimeBases
  import opened MostCommonValues

  /** `pts` is what the frame carried, `bestEffort` what the reference stamped on it: its pts, or a guess. */
  datatype ReferenceFrame = ReferenceFrame(pts: Option<int>, bestEffort: Option<int>)

  datatype Reference = Reference(timeBase: TimeBase, frames: seq<ReferenceFrame>)

  datatype Pairing = EveryFrame | FirstFrame

  datatype Verdict =
    | Match
    | PtsDiffers(frame: nat, ns: Option<nat>, referenceTicks: int, guessed: bool)
    | FrameCountDiffers(frames: nat, referenceFrames: nat)
    | NotIncreasing(frame: nat)
    | NoReferenceTimestamps

  datatype Comparison = Comparison(offset: int, verdict: Verdict)

  type Pts = seq<Option<nat>>

  // ----- the offset -----

  /** How many frames are paired by index. */
  function Paired(reference: Reference, pts: Pts, pairing: Pairing): (n: nat)
    ensures n <= |reference.frames| && n <= |pts|
  {
    var both := if |reference.frames| <= |pts| then |reference.frames| else |pts|;
    if pairing.EveryFrame? || both == 0 then both else 1
  }

  function OwnTicks(frame: ReferenceFrame): Option<int> {
    if frame.pts.Some? then frame.pts else frame.bestEffort
  }

  /** The decode's tick minus the frame's own, for each of the first n pairs that has both. */
  function Differences(reference: Reference, pts: Pts, n: nat): seq<int>
    requires reference.timeBase.Valid() && n <= |reference.frames| && n <= |pts|
  {
    if n == 0 then []
    else
      var ticks, ns := OwnTicks(reference.frames[n - 1]), pts[n - 1];
      var before := Differences(reference, pts, n - 1);
      if ticks.Some? && ns.Some? then before + [NearestTick(reference.timeBase, ns.value) - ticks.value] else before
  }

  ghost predicate IsOffset(reference: Reference, pts: Pts, pairing: Pairing, offset: int)
    requires reference.timeBase.Valid()
  {
    var differences := Differences(reference, pts, Paired(reference, pts, pairing));
    if differences == [] then offset == 0 else IsMostCommon(differences, Some(offset))
  }

  // ----- what a verdict means -----

  function Guessed(frame: ReferenceFrame): bool
    requires frame.bestEffort.Some?
  {
    frame.pts != frame.bestEffort
  }

  /** The decode's tick is the one the reference stamped, or the frame's own that the reference replaced. */
  predicate Fits(timeBase: TimeBase, frame: ReferenceFrame, ns: Option<nat>, offset: int)
    requires timeBase.Valid()
  {
    frame.bestEffort.Some? ==>
      && ns.Some?
      && var ticks := NearestTick(timeBase, ns.value) - offset;
         Some(ticks) == frame.bestEffort || Some(ticks) == frame.pts
  }

  ghost predicate AllFit(reference: Reference, pts: Pts, offset: int, n: nat)
    requires reference.timeBase.Valid() && n <= |reference.frames| && n <= |pts|
  {
    forall i :: 0 <= i < n ==> Fits(reference.timeBase, reference.frames[i], pts[i], offset)
  }

  /** A reference pts checks this frame. */
  predicate Stamped(reference: Reference, pts: Pts, pairing: Pairing, i: nat) {
    i < Paired(reference, pts, pairing) && reference.frames[i].bestEffort.Some?
  }

  predicate Increases(pts: Pts, i: nat)
    requires 0 < i < |pts|
  {
    pts[i - 1].Some? && pts[i].Some? && pts[i - 1].value < pts[i].value
  }

  predicate InOrder(reference: Reference, pts: Pts, pairing: Pairing, i: nat)
    requires 0 < i < |pts|
  {
    Stamped(reference, pts, pairing, i) || Increases(pts, i)
  }

  ghost predicate OrderedBelow(reference: Reference, pts: Pts, pairing: Pairing, n: nat)
    requires n <= |pts|
  {
    forall i :: 0 < i < n ==> InOrder(reference, pts, pairing, i)
  }

  ghost predicate SomeStamped(reference: Reference, pts: Pts, pairing: Pairing) {
    exists i: nat :: Stamped(reference, pts, pairing, i)
  }

  predicate CountsAgree(reference: Reference, pts: Pts, pairing: Pairing) {
    pairing.EveryFrame? ==> |reference.frames| == |pts|
  }

  ghost predicate IsVerdict(reference: Reference, pts: Pts, pairing: Pairing, offset: int, verdict: Verdict)
    requires reference.timeBase.Valid()
  {
    var paired := Paired(reference, pts, pairing);
    match verdict
    case PtsDiffers(frame, ns, ticks, guessed) =>
      && frame < paired
      && AllFit(reference, pts, offset, frame)
      && !Fits(reference.timeBase, reference.frames[frame], pts[frame], offset)
      && ns == pts[frame]
      && reference.frames[frame].bestEffort == Some(ticks)
      && guessed == Guessed(reference.frames[frame])
    case FrameCountDiffers(frames, referenceFrames) =>
      && AllFit(reference, pts, offset, paired)
      && !CountsAgree(reference, pts, pairing)
      && frames == |pts|
      && referenceFrames == |reference.frames|
    case NotIncreasing(frame) =>
      && AllFit(reference, pts, offset, paired)
      && CountsAgree(reference, pts, pairing)
      && 0 < frame < |pts|
      && OrderedBelow(reference, pts, pairing, frame)
      && !InOrder(reference, pts, pairing, frame)
    case NoReferenceTimestamps =>
      && AllFit(reference, pts, offset, paired)
      && CountsAgree(reference, pts, pairing)
      && OrderedBelow(reference, pts, pairing, |pts|)
      && !SomeStamped(reference, pts, pairing)
    case Match =>
      && AllFit(reference, pts, offset, paired)
      && CountsAgree(reference, pts, pairing)
      && OrderedBelow(reference, pts, pairing, |pts|)
      && SomeStamped(reference, pts, pairing)
  }

  /** `IsVerdict` leaves one verdict. */
  lemma VerdictIsUnique(reference: Reference, pts: Pts, pairing: Pairing, offset: int, a: Verdict, b: Verdict)
    requires reference.timeBase.Valid()
    requires IsVerdict(reference, pts, pairing, offset, a) && IsVerdict(reference, pts, pairing, offset, b)
    ensures a == b
  {
    if a.NotIncreasing? && b.NotIncreasing? {
      assert !InOrder(reference, pts, pairing, a.frame) && !InOrder(reference, pts, pairing, b.frame);
    }
  }

  lemma OffsetIsUnique(reference: Reference, pts: Pts, pairing: Pairing, a: int, b: int)
    requires reference.timeBase.Valid()
    requires IsOffset(reference, pts, pairing, a) && IsOffset(reference, pts, pairing, b)
    ensures a == b
  {
    var differences := Differences(reference, pts, Paired(reference, pts, pairing));
    if differences != [] {
      MostCommonIsUnique(differences, Some(a), Some(b));
    }
  }

  ghost predicate Compares(reference: Reference, pts: Pts, pairing: Pairing, comparison: Comparison)
    requires reference.timeBase.Valid()
  {
    && IsOffset(reference, pts, pairing, comparison.offset)
    && IsVerdict(reference, pts, pairing, comparison.offset, comparison.verdict)
  }

  // ----- the comparison -----

  method OffsetOf(reference: Reference, pts: Pts, pairing: Pairing) returns (offset: int)
    requires reference.timeBase.Valid()
    ensures IsOffset(reference, pts, pairing, offset)
  {
    var mostCommon := MostCommon(Differences(reference, pts, Paired(reference, pts, pairing)));
    offset := if mostCommon.Some? then mostCommon.value else 0;
  }

  /** Which of the frames below n have been checked. */
  ghost predicate Marks(reference: Reference, pts: Pts, pairing: Pairing, n: nat, checked: seq<bool>)
    requires |checked| == |pts|
  {
    forall i :: 0 <= i < |pts| ==> checked[i] == (i < n && Stamped(reference, pts, pairing, i))
  }

  /** Looks for the first stamped pair that does not fit, and marks those that do. */
  method CheckPairs(reference: Reference, pts: Pts, pairing: Pairing, offset: int, checked: array<bool>)
    returns (differs: Option<Verdict>)
    requires reference.timeBase.Valid() && checked.Length == |pts|
    requires forall i :: 0 <= i < checked.Length ==> !checked[i]
    modifies checked
    ensures differs.Some? ==> differs.value.PtsDiffers? && IsVerdict(reference, pts, pairing, offset, differs.value)
    ensures differs.None? ==> AllFit(reference, pts, offset, Paired(reference, pts, pairing))
    ensures differs.None? ==> Marks(reference, pts, pairing, |pts|, checked[..])
  {
    var paired := Paired(reference, pts, pairing);
    for frame := 0 to paired
      invariant AllFit(reference, pts, offset, frame)
      invariant Marks(reference, pts, pairing, frame, checked[..])
    {
      var referenceFrame, ns := reference.frames[frame], pts[frame];
      if referenceFrame.bestEffort.Some? {
        var ticks := referenceFrame.bestEffort.value;
        var guessed := referenceFrame.pts != Some(ticks);
        var accepted := [Some(ticks), if guessed then referenceFrame.pts else None];
        var matched := ns.Some? && Some(NearestTick(reference.timeBase, ns.value) - offset) in accepted;
        if !matched {
          return Some(PtsDiffers(frame, ns, ticks, guessed));
        }
        checked[frame] := true;
      }
    }
    differs := None;
  }

  method Compare(reference: Reference, pts: Pts, pairing: Pairing) returns (comparison: Comparison)
    requires reference.timeBase.Valid()
    ensures Compares(reference, pts, pairing, comparison)
  {
    var offset := OffsetOf(reference, pts, pairing);
    var checked := new bool[|pts|](_ => false);
    var differs := CheckPairs(reference, pts, pairing, offset, checked);
    if differs.Some? {
      return Comparison(offset, differs.value);
    }
    if pairing == EveryFrame && |reference.frames| != |pts| {
      return Comparison(offset, FrameCountDiffers(|pts|, |reference.frames|));
    }
    var verdict := JudgeOrder(reference, pts, pairing, offset, checked[..]);
    comparison := Comparison(offset, verdict);
  }

  /** The verdict once every stamped pair fits. */
  method JudgeOrder(reference: Reference, pts: Pts, pairing: Pairing, offset: int, checked: seq<bool>)
    returns (verdict: Verdict)
    requires reference.timeBase.Valid() && |checked| == |pts| && Marks(reference, pts, pairing, |pts|, checked)
    requires AllFit(reference, pts, offset, Paired(reference, pts, pairing)) && CountsAgree(reference, pts, pairing)
    ensures IsVerdict(reference, pts, pairing, offset, verdict)
  {
    var frame := 1;
    while frame < |pts|
      invariant frame <= |pts| || frame == 1
      invariant OrderedBelow(reference, pts, pairing, if frame <= |pts| then frame else |pts|)
    {
      if !checked[frame]
         && (pts[frame - 1].None? || pts[frame].None? || pts[frame].value <= pts[frame - 1].value) {
        return NotIncreasing(frame);
      }
      frame := frame + 1;
    }
    if true !in checked {
      return NoReferenceTimestamps;
    }
    var i :| 0 <= i < |checked| && checked[i];
    assert Stamped(reference, pts, pairing, i);
    verdict := Match;
  }

  predicate IsLater(after: Option<nat>, before: Option<nat>) {
    match (before, after)
    case (Some(b), Some(a)) => a > b
    case _ => false
  }

  predicate HasStamp(reference: Reference, i: nat) {
    i < |reference.frames| && reference.frames[i].bestEffort.Some?
  }

  /** If the reference stamped this frame, the decode's tick, less the offset, is the stamp, or the frame's own pts that
      the stamp replaced. */
  predicate CarriesStamp(reference: Reference, pts: Pts, i: nat, offset: int)
    requires reference.timeBase.Valid() && i < |reference.frames| && i < |pts|
  {
    match reference.frames[i].bestEffort
    case None => true
    case Some(stamp) =>
      && pts[i].Some?
      && var tick := NearestTick(reference.timeBase, pts[i].value);
         || tick == stamp + offset
         || (reference.frames[i].pts.Some? && tick == reference.frames[i].pts.value + offset)
  }

  /** The difference between the decode's tick and the frame's own pts, or its stamp if it has none. */
  predicate HasDifference(reference: Reference, pts: Pts, i: nat, difference: int)
    requires reference.timeBase.Valid() && i < |reference.frames| && i < |pts|
  {
    && pts[i].Some?
    && var tick, frame := NearestTick(reference.timeBase, pts[i].value), reference.frames[i];
       || (frame.pts.Some? && tick == frame.pts.value + difference)
       || (frame.pts.None? && frame.bestEffort.Some? && tick == frame.bestEffort.value + difference)
  }

  ghost function Where(reference: Reference, pts: Pts, n: nat, difference: int): set<nat>
    requires reference.timeBase.Valid() && n <= |reference.frames| && n <= |pts|
  {
    PlacesBelow(n, (i: nat) =>
      i < |reference.frames| && i < |pts| && HasDifference(reference, pts, i, difference))
  }

  ghost function PlacesBelow(n: nat, kind: nat -> bool): set<nat> {
    set i: nat | i < n && kind(i)
  }

  lemma PlacesOneMore(n: nat, kind: nat -> bool)
    ensures |PlacesBelow(n + 1, kind)| == |PlacesBelow(n, kind)| + if kind(n) then 1 else 0
  {
    if kind(n) {
      assert PlacesBelow(n + 1, kind) == PlacesBelow(n, kind) + {n};
    } else {
      assert PlacesBelow(n + 1, kind) == PlacesBelow(n, kind);
    }
  }

  lemma {:induction false} CountIsWhere(reference: Reference, pts: Pts, n: nat, difference: int)
    requires reference.timeBase.Valid() && n <= |reference.frames| && n <= |pts|
    ensures Count(Differences(reference, pts, n), difference) == |Where(reference, pts, n, difference)|
  {
    if n == 0 {
      assert Where(reference, pts, 0, difference) == {};
    } else {
      CountIsWhere(reference, pts, n - 1, difference);
      WhereOneMore(reference, pts, n - 1, difference);
    }
  }

  lemma WhereOneMore(reference: Reference, pts: Pts, n: nat, difference: int)
    requires reference.timeBase.Valid() && n < |reference.frames| && n < |pts|
    ensures |Where(reference, pts, n + 1, difference)|
            == |Where(reference, pts, n, difference)| + if HasDifference(reference, pts, n, difference) then 1 else 0
  {
    PlacesOneMore(n, (i: nat) => i < |reference.frames| && i < |pts| && HasDifference(reference, pts, i, difference));
  }

  /** No difference is that of more paired frames than the offset; without any the offset is zero. */
  lemma OffsetIsMostCommon(reference: Reference, pts: Pts, pairing: Pairing, offset: int, other: int)
    requires reference.timeBase.Valid() && IsOffset(reference, pts, pairing, offset)
    ensures var n := Paired(reference, pts, pairing);
            && |Where(reference, pts, n, other)| <= |Where(reference, pts, n, offset)|
            && (Where(reference, pts, n, offset) == {} ==> offset == 0)
  {
    var n := Paired(reference, pts, pairing);
    var differences := Differences(reference, pts, n);
    CountIsWhere(reference, pts, n, other);
    CountIsWhere(reference, pts, n, offset);
    if differences == [] {
      assert Count(differences, other) == 0;
    } else {
      MostCommonIsHighest(differences, offset, other);
    }
  }

  /** With every frame paired, the comparison matches exactly when both sides have as many frames, each stamped frame has
      the stamp's tick or its own under the offset, each unstamped one comes after the one before it, and there is a
      stamped one. */
  lemma MatchMeans(reference: Reference, pts: Pts, comparison: Comparison)
    requires reference.timeBase.Valid() && Compares(reference, pts, EveryFrame, comparison)
    ensures comparison.verdict == Match <==>
            && |pts| == |reference.frames|
            && (forall i :: 0 <= i < |pts| ==> CarriesStamp(reference, pts, i, comparison.offset))
            && (forall i :: 0 < i < |pts| && !HasStamp(reference, i) ==> IsLater(pts[i], pts[i - 1]))
            && (exists i: nat :: HasStamp(reference, i))
  {
    if |pts| == |reference.frames| {
      PairedAreAll(reference, pts);
      FitsIsCarried(reference, pts, comparison.offset);
      if IsVerdict(reference, pts, EveryFrame, comparison.offset, Match) {
        VerdictIsUnique(reference, pts, EveryFrame, comparison.offset, comparison.verdict, Match);
      }
    }
  }

  /** A pts that differs is reported for the first frame that does not carry its stamp, with that stamp, and whether the
      stamp is a guess: not the frame's own pts. */
  lemma DifferenceSays(reference: Reference, pts: Pts, pairing: Pairing, comparison: Comparison)
    requires reference.timeBase.Valid() && Compares(reference, pts, pairing, comparison)
    requires comparison.verdict.PtsDiffers?
    ensures var v := comparison.verdict;
            && v.frame < |reference.frames| && v.frame < |pts|
            && (forall i :: 0 <= i < v.frame ==> CarriesStamp(reference, pts, i, comparison.offset))
            && !CarriesStamp(reference, pts, v.frame, comparison.offset)
            && v.ns == pts[v.frame]
            && reference.frames[v.frame].bestEffort == Some(v.referenceTicks)
            && (v.guessed <==> reference.frames[v.frame].pts != Some(v.referenceTicks))
  {
    forall i | 0 <= i <= comparison.verdict.frame
      ensures Fits(reference.timeBase, reference.frames[i], pts[i], comparison.offset)
              <==> CarriesStamp(reference, pts, i, comparison.offset)
    {
    }
  }

  lemma FitsIsCarried(reference: Reference, pts: Pts, offset: int)
    requires reference.timeBase.Valid() && |pts| == |reference.frames|
    ensures AllFit(reference, pts, offset, |pts|) <==>
              forall i :: 0 <= i < |pts| ==> CarriesStamp(reference, pts, i, offset)
  {
    forall i | 0 <= i < |pts|
      ensures Fits(reference.timeBase, reference.frames[i], pts[i], offset) <==> CarriesStamp(reference, pts, i, offset)
    {
    }
  }

  /** With only the first frame paired, it sets the offset, so its stamp fits whatever its tick is. The comparison matches
      exactly when the reference stamped it, the decode has a pts for it, and each later pts is after the one before. */
  lemma FirstFrameMeans(reference: Reference, pts: Pts, comparison: Comparison)
    requires reference.timeBase.Valid() && Compares(reference, pts, FirstFrame, comparison)
    ensures comparison.verdict == Match <==>
            && reference.frames != [] && pts != []
            && reference.frames[0].bestEffort.Some? && pts[0].Some?
            && (forall i :: 0 < i < |pts| ==> IsLater(pts[i], pts[i - 1]))
  {
    if reference.frames != [] && pts != [] {
      FirstFrameFits(reference, pts, comparison.offset);
    }
    if reference.frames != [] && pts != [] && reference.frames[0].bestEffort.Some? && pts[0].Some?
       && forall i :: 0 < i < |pts| ==> IsLater(pts[i], pts[i - 1])
    {
      forall i | 0 < i < |pts|
        ensures InOrder(reference, pts, FirstFrame, i)
      {
        assert IsLater(pts[i], pts[i - 1]);
      }
      assert Stamped(reference, pts, FirstFrame, 0);
      assert IsVerdict(reference, pts, FirstFrame, comparison.offset, Match);
      VerdictIsUnique(reference, pts, FirstFrame, comparison.offset, comparison.verdict, Match);
    }
    if comparison.verdict == Match {
      var i: nat :| Stamped(reference, pts, FirstFrame, i);
      forall i | 0 < i < |pts|
        ensures IsLater(pts[i], pts[i - 1])
      {
        assert InOrder(reference, pts, FirstFrame, i);
      }
    }
  }

  lemma FirstFrameFits(reference: Reference, pts: Pts, offset: int)
    requires reference.timeBase.Valid() && IsOffset(reference, pts, FirstFrame, offset)
    requires reference.frames != [] && pts != []
    ensures Fits(reference.timeBase, reference.frames[0], pts[0], offset)
            <==> reference.frames[0].bestEffort.None? || pts[0].Some?
  {
    var frame := reference.frames[0];
    if frame.bestEffort.Some? && pts[0].Some? {
      var difference := NearestTick(reference.timeBase, pts[0].value) - OwnTicks(frame).value;
      assert Differences(reference, pts, 0) == [];
      assert Differences(reference, pts, 1) == [difference];
    }
  }

  lemma PairedAreAll(reference: Reference, pts: Pts)
    requires |pts| == |reference.frames|
    ensures OrderedBelow(reference, pts, EveryFrame, |pts|) <==>
            forall i :: 0 < i < |pts| && !HasStamp(reference, i) ==> IsLater(pts[i], pts[i - 1])
    ensures SomeStamped(reference, pts, EveryFrame) <==> exists i: nat :: HasStamp(reference, i)
  {
    forall i: nat
      ensures Stamped(reference, pts, EveryFrame, i) == HasStamp(reference, i)
    {
    }
    forall i | 0 < i < |pts|
      ensures InOrder(reference, pts, EveryFrame, i) == (HasStamp(reference, i) || IsLater(pts[i], pts[i - 1]))
    {
    }
    if i: nat :| HasStamp(reference, i) {
      assert Stamped(reference, pts, EveryFrame, i);
    }
  }

  // ----- shifting the decode -----

  /** `moved` is the decode with every pts later, or earlier, by as many nanoseconds. */
  ghost predicate IsShifted(pts: Pts, moved: Pts, shiftNs: int) {
    && |moved| == |pts|
    && forall i :: 0 <= i < |pts| ==> IsShiftedOne(pts[i], moved[i], shiftNs)
  }

  ghost predicate IsShiftedOne(ns: Option<nat>, moved: Option<nat>, shiftNs: int) {
    if ns.None? then moved.None? else moved.Some? && moved.value == ns.value + shiftNs
  }

  /** The same verdict, with the nanoseconds it reports moved along. */
  ghost predicate SameVerdict(a: Verdict, b: Verdict, shiftNs: int) {
    if a.PtsDiffers? then
      b.PtsDiffers? && b == a.(ns := b.ns) && IsShiftedOne(a.ns, b.ns, shiftNs)
    else b == a
  }

  lemma {:induction false} ShiftMovesDifferences(reference: Reference, pts: Pts, moved: Pts, shiftNs: int,
                                                 ticks: int, n: nat)
    requires reference.timeBase.Valid() && n <= |reference.frames| && n <= |pts|
    requires IsShifted(pts, moved, shiftNs) && IsWholeTicks(reference.timeBase, shiftNs, ticks)
    ensures Differences(reference, moved, n) == Shifted(Differences(reference, pts, n), ticks)
  {
    if n > 0 {
      ShiftMovesDifferences(reference, pts, moved, shiftNs, ticks, n - 1);
      assert IsShiftedOne(pts[n - 1], moved[n - 1], shiftNs);
      if pts[n - 1].Some? && OwnTicks(reference.frames[n - 1]).Some? {
        var ns, own := pts[n - 1].value, OwnTicks(reference.frames[n - 1]).value;
        WholeTicksCarryOver(reference.timeBase, ns, shiftNs, ticks);
        ShiftedOneMore(Differences(reference, pts, n - 1), NearestTick(reference.timeBase, ns) - own, ticks);
      }
    }
  }

  lemma ShiftedOneMore(differences: seq<int>, last: int, shift: int)
    ensures Shifted(differences + [last], shift) == Shifted(differences, shift) + [last + shift]
  {
  }

  lemma {:induction false} ShiftMovesOffset(reference: Reference, pts: Pts, moved: Pts, pairing: Pairing,
                                            shiftNs: int, ticks: int, offset: int)
    requires reference.timeBase.Valid() && IsOffset(reference, pts, pairing, offset)
    requires IsShifted(pts, moved, shiftNs) && IsWholeTicks(reference.timeBase, shiftNs, ticks)
    ensures var none := Differences(reference, pts, Paired(reference, pts, pairing)) == [];
            IsOffset(reference, moved, pairing, if none then 0 else offset + ticks)
  {
    var n := Paired(reference, pts, pairing);
    ShiftMovesDifferences(reference, pts, moved, shiftNs, ticks, n);
    var differences := Differences(reference, pts, n);
    if differences != [] {
      ShiftMovesTheMostCommon(differences, ticks, offset);
    }
  }

  lemma ShiftKeepsFit(timeBase: TimeBase, frame: ReferenceFrame, ns: Option<nat>, moved: Option<nat>, shiftNs: int,
                      ticks: int, offset: int)
    requires timeBase.Valid() && IsShiftedOne(ns, moved, shiftNs) && IsWholeTicks(timeBase, shiftNs, ticks)
    ensures Fits(timeBase, frame, moved, offset + ticks) == Fits(timeBase, frame, ns, offset)
  {
    if ns.Some? {
      WholeTicksCarryOver(timeBase, ns.value, shiftNs, ticks);
    }
  }

  /** Without any difference no frame has both a stamp and a pts, so whether a frame fits does not depend on the offset. */
  lemma {:induction false} NoDifferenceNoTicks(reference: Reference, pts: Pts, n: nat, i: nat)
    requires reference.timeBase.Valid() && i < n <= |reference.frames| && n <= |pts|
    requires Differences(reference, pts, n) == []
    ensures reference.frames[i].bestEffort.None? || pts[i].None?
    decreases n
  {
    if i < n - 1 {
      NoDifferenceNoTicks(reference, pts, n - 1, i);
    }
  }

  lemma {:induction false} ShiftKeepsFits(reference: Reference, pts: Pts, moved: Pts, pairing: Pairing, shiftNs: int,
                                          ticks: int,
                       offset: int, movedOffset: int)
    requires reference.timeBase.Valid()
    requires IsShifted(pts, moved, shiftNs) && IsWholeTicks(reference.timeBase, shiftNs, ticks)
    requires movedOffset == offset + ticks || Differences(reference, pts, Paired(reference, pts, pairing)) == []
    ensures forall i :: 0 <= i < Paired(reference, pts, pairing) ==>
              Fits(reference.timeBase, reference.frames[i], moved[i], movedOffset)
              == Fits(reference.timeBase, reference.frames[i], pts[i], offset)
  {
    forall i | 0 <= i < Paired(reference, pts, pairing)
      ensures Fits(reference.timeBase, reference.frames[i], moved[i], movedOffset)
              == Fits(reference.timeBase, reference.frames[i], pts[i], offset)
    {
      assert IsShiftedOne(pts[i], moved[i], shiftNs);
      if movedOffset == offset + ticks {
        ShiftKeepsFit(reference.timeBase, reference.frames[i], pts[i], moved[i], shiftNs, ticks, offset);
      } else {
        NoDifferenceNoTicks(reference, pts, Paired(reference, pts, pairing), i);
      }
    }
  }

  lemma ShiftKeepsOrder(reference: Reference, pts: Pts, moved: Pts, pairing: Pairing, shiftNs: int)
    requires IsShifted(pts, moved, shiftNs)
    ensures forall i :: 0 < i < |pts| ==> InOrder(reference, moved, pairing, i) == InOrder(reference, pts, pairing, i)
    ensures SomeStamped(reference, moved, pairing) == SomeStamped(reference, pts, pairing)
  {
    forall i | 0 < i < |pts|
      ensures InOrder(reference, moved, pairing, i) == InOrder(reference, pts, pairing, i)
    {
      assert IsShiftedOne(pts[i - 1], moved[i - 1], shiftNs) && IsShiftedOne(pts[i], moved[i], shiftNs);
    }
    forall i: nat
      ensures Stamped(reference, moved, pairing, i) == Stamped(reference, pts, pairing, i)
    {
    }
    if SomeStamped(reference, pts, pairing) {
      var i: nat :| Stamped(reference, pts, pairing, i);
      assert Stamped(reference, moved, pairing, i);
    }
  }

  lemma ShiftKeepsVerdict(reference: Reference, pts: Pts, moved: Pts, pairing: Pairing, shiftNs: int, ticks: int,
                          offset: int, movedOffset: int, verdict: Verdict) returns (movedVerdict: Verdict)
    requires reference.timeBase.Valid() && IsVerdict(reference, pts, pairing, offset, verdict)
    requires IsShifted(pts, moved, shiftNs) && IsWholeTicks(reference.timeBase, shiftNs, ticks)
    requires movedOffset == offset + ticks || Differences(reference, pts, Paired(reference, pts, pairing)) == []
    ensures SameVerdict(verdict, movedVerdict, shiftNs)
    ensures IsVerdict(reference, moved, pairing, movedOffset, movedVerdict)
  {
    ShiftKeepsFits(reference, pts, moved, pairing, shiftNs, ticks, offset, movedOffset);
    ShiftKeepsOrder(reference, pts, moved, pairing, shiftNs);
    movedVerdict := verdict;
    if verdict.PtsDiffers? {
      assert IsShiftedOne(pts[verdict.frame], moved[verdict.frame], shiftNs);
      movedVerdict := verdict.(ns := moved[verdict.frame]);
    }
  }

  /** Shifting the whole decode by whole ticks adds them to the offset, if there is a difference to take it from, and
      leaves the verdict as it is. */
  lemma {:induction false} CompareIsShiftEquivariant(reference: Reference, pts: Pts, moved: Pts, pairing: Pairing,
                                                     shiftNs: int, ticks: int,
                                  before: Comparison, after: Comparison)
    requires reference.timeBase.Valid()
    requires IsShifted(pts, moved, shiftNs) && IsWholeTicks(reference.timeBase, shiftNs, ticks)
    requires Compares(reference, pts, pairing, before) && Compares(reference, moved, pairing, after)
    ensures after.offset == if Differences(reference, pts, Paired(reference, pts, pairing)) == [] then 0
                            else before.offset + ticks
    ensures SameVerdict(before.verdict, after.verdict, shiftNs)
  {
    ShiftMovesOffset(reference, pts, moved, pairing, shiftNs, ticks, before.offset);
    var none := Differences(reference, pts, Paired(reference, pts, pairing)) == [];
    OffsetIsUnique(reference, moved, pairing, after.offset, if none then 0 else before.offset + ticks);
    var verdict := ShiftKeepsVerdict(reference, pts, moved, pairing, shiftNs, ticks, before.offset, after.offset, before.verdict);
    VerdictIsUnique(reference, moved, pairing, after.offset, verdict, after.verdict);
  }

  // ----- a decode that is a shifted reference -----

  /** Every frame is stamped with its own pts, and the decode has that tick plus `shift`, in nanoseconds either truncated
      or rounded up. */
  ghost predicate CarriesShifted(reference: Reference, pts: Pts, shift: int)
    requires reference.timeBase.Valid()
  {
    && |pts| == |reference.frames|
    && forall i :: 0 <= i < |pts| ==> CarriesShiftedOne(reference.timeBase, reference.frames[i], pts[i], shift)
  }

  ghost predicate CarriesShiftedOne(timeBase: TimeBase, frame: ReferenceFrame, ns: Option<nat>, shift: int)
    requires timeBase.Valid()
  {
    && frame.pts.Some?
    && frame.bestEffort == frame.pts
    && frame.pts.value + shift >= 0
    && DecodesOne(timeBase, Some(frame.pts.value + shift), ns)
  }

  lemma {:induction false} OneDifferenceEach(reference: Reference, pts: Pts, shift: int, n: nat)
    requires reference.timeBase.Valid() && reference.timeBase.TickIsTwoNsOrMore() && CarriesShifted(reference, pts, shift)
    requires n <= |pts|
    ensures |Differences(reference, pts, n)| == n
    ensures forall i :: 0 <= i < n ==> Differences(reference, pts, n)[i] == shift
  {
    if n > 0 {
      OneDifferenceEach(reference, pts, shift, n - 1);
      assert CarriesShiftedOne(reference.timeBase, reference.frames[n - 1], pts[n - 1], shift);
      TicksOfDecoded(reference.timeBase, Some(reference.frames[n - 1].pts.value + shift), pts[n - 1]);
    }
  }

  /** A shift that all frames share is the offset, and nothing else is wrong, however each frame was rounded. */
  lemma SharedShiftMatches(reference: Reference, pts: Pts, shift: int, pairing: Pairing, comparison: Comparison)
    requires reference.timeBase.Valid() && reference.timeBase.TickIsTwoNsOrMore() && CarriesShifted(reference, pts, shift)
    requires pts != [] && pairing.EveryFrame? && Compares(reference, pts, pairing, comparison)
    ensures comparison == Comparison(shift, Match)
  {
    OneDifferenceEach(reference, pts, shift, |pts|);
    OnlyValueIsMostCommon(Differences(reference, pts, |pts|), shift);
    OffsetIsUnique(reference, pts, pairing, comparison.offset, shift);
    forall i | 0 <= i < |pts|
      ensures Fits(reference.timeBase, reference.frames[i], pts[i], shift) && Stamped(reference, pts, pairing, i)
    {
      assert CarriesShiftedOne(reference.timeBase, reference.frames[i], pts[i], shift);
      TicksOfDecoded(reference.timeBase, Some(reference.frames[i].pts.value + shift), pts[i]);
    }
    assert Stamped(reference, pts, pairing, 0);
    VerdictIsUnique(reference, pts, pairing, shift, comparison.verdict, Match);
  }
}
