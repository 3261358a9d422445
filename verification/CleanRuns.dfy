/** The unbroken run of good video frames, crates/calliope-cli/src/canary/checks.rs. An online monotonic
    deque keeps the start of the run; the declarative answer rescans every frame of the run. */
module CleanRuns {
  import opened Prelude

  const LATE_FRAME_NS: int := 5_000_000_000

  /** A good video frame: arrival minus pts on the monotonic clock, and the wall clock arrival. */
  datatype Frame = Frame(offsetNs: int, arrival: real)

  datatype MaybeLateFrame = MaybeLateFrame(offsetNs: int, nextArrival: Option<real>)

  datatype OffsetMean = OffsetMean(sumNs: int, frames: nat) {
    function Add(offsetNs: int): OffsetMean {
      OffsetMean(sumNs + offsetNs, frames + 1)
    }

    function Mean(): Option<real> {
      if frames > 0 then Some(sumNs as real / frames as real) else None
    }
  }

  const NO_OFFSETS := OffsetMean(0, 0)

  // ----- the declarative answer -----

  /** Frames are late by how much their offset exceeds this one. */
  function OnTimeOffset(frames: seq<Frame>): int
    requires frames != []
  {
    var last := |frames| - 1;
    if last == 0 then frames[0].offsetNs else Min(OnTimeOffset(frames[..last]), frames[last].offsetNs)
  }

  lemma {:induction false} OnTimeOffsetIsLeast(frames: seq<Frame>)
    requires frames != []
    ensures forall i :: 0 <= i < |frames| ==> OnTimeOffset(frames) <= frames[i].offsetNs
    ensures exists i :: 0 <= i < |frames| && frames[i].offsetNs == OnTimeOffset(frames)
  {
    var last := |frames| - 1;
    if last > 0 {
      OnTimeOffsetIsLeast(frames[..last]);
      var i :| 0 <= i < last && frames[..last][i].offsetNs == OnTimeOffset(frames[..last]);
      assert frames[i].offsetNs == OnTimeOffset(frames[..last]);
    } else {
      assert frames[0].offsetNs == OnTimeOffset(frames);
    }
  }

  predicate IsLate(frames: seq<Frame>, i: nat)
    requires i < |frames|
  {
    frames[i].offsetNs - OnTimeOffset(frames) > LATE_FRAME_NS
  }

  /** One past the last late frame among the first n. */
  function OnTimeFrom(frames: seq<Frame>, n: nat): (k: nat)
    requires n <= |frames|
    ensures k <= n
  {
    if n == 0 || IsLate(frames, n - 1) then n else OnTimeFrom(frames, n - 1)
  }

  /** `k` is one past the last late frame exactly when the frame before it is late and none from it on is. */
  lemma {:induction false} OnTimeFromIs(frames: seq<Frame>, n: nat, k: nat)
    requires k <= n <= |frames|
    ensures OnTimeFrom(frames, n) == k <==>
              (k > 0 ==> IsLate(frames, k - 1)) && forall i :: k <= i < n ==> !IsLate(frames, i)
  {
    if n > 0 && !IsLate(frames, n - 1) && k < n {
      OnTimeFromIs(frames, n - 1, k);
    }
  }

  /** The arrival of the first frame after the last late one, none while the newest frame is late. */
  function RunStart(frames: seq<Frame>): Option<real> {
    ArrivalAt(frames, OnTimeFrom(frames, |frames|))
  }

  function ArrivalAt(frames: seq<Frame>, i: nat): Option<real> {
    if i < |frames| then Some(frames[i].arrival) else None
  }

  // ----- the deque -----

  /** The frames from `from` on that are later than every frame after them. */
  function Kept(frames: seq<Frame>, from: nat): (kept: seq<nat>)
    requires from <= |frames|
    ensures forall k :: 0 <= k < |kept| ==> from <= kept[k] < |frames|
    decreases |frames| - from
  {
    if from == |frames| then [] else InFront(frames, from, Kept(frames, from + 1))
  }

  function InFront(frames: seq<Frame>, from: nat, rest: seq<nat>): (kept: seq<nat>)
    requires from < |frames|
    requires forall k :: 0 <= k < |rest| ==> from < rest[k] < |frames|
    ensures forall k :: 0 <= k < |kept| ==> from <= kept[k] < |frames|
  {
    if rest == [] || frames[from].offsetNs > frames[rest[0]].offsetNs then [from] + rest else rest
  }

  /** The deque that holds the frames `kept` points at. */
  function Held(frames: seq<Frame>, kept: seq<nat>): (r: seq<MaybeLateFrame>)
    requires forall k :: 0 <= k < |kept| ==> kept[k] < |frames|
    ensures |r| == |kept|
  {
    seq(|kept|, k requires 0 <= k < |kept| => MaybeLateFrame(frames[kept[k]].offsetNs, ArrivalAt(frames, kept[k] + 1)))
  }

  /** The deque falls strictly from front to back. */
  lemma {:induction false} KeptFalls(frames: seq<Frame>, from: nat, k: nat)
    requires from <= |frames| && k + 1 < |Kept(frames, from)|
    ensures Kept(frames, from)[k] < Kept(frames, from)[k + 1]
    ensures frames[Kept(frames, from)[k]].offsetNs > frames[Kept(frames, from)[k + 1]].offsetNs
    decreases |frames| - from
  {
    var kept, rest := Kept(frames, from), Kept(frames, from + 1);
    if kept == rest {
      KeptFalls(frames, from + 1, k);
    } else if k > 0 {
      KeptFalls(frames, from + 1, k - 1);
    }
  }

  /** Its front is as late as any frame it stands for. */
  lemma {:induction false} FrontIsLatest(frames: seq<Frame>, from: nat, i: nat)
    requires from <= i < |frames|
    ensures Kept(frames, from) != []
    ensures frames[i].offsetNs <= frames[Kept(frames, from)[0]].offsetNs
    decreases |frames| - from
  {
    if i > from {
      FrontIsLatest(frames, from + 1, i);
    }
  }

  /** Popping the front leaves what the frames after it would have left. */
  lemma {:induction false} PopFront(frames: seq<Frame>, from: nat)
    requires from <= |frames| && Kept(frames, from) != []
    ensures Kept(frames, Kept(frames, from)[0] + 1) == Kept(frames, from)[1..]
    decreases |frames| - from
  {
    if Kept(frames, from) == Kept(frames, from + 1) {
      PopFront(frames, from + 1);
    }
  }

  /** The first q of the kept frames are later than a frame at this offset, the next one is not. */
  predicate IsCut(frames: seq<Frame>, kept: seq<nat>, offsetNs: int, q: nat)
    requires forall k :: 0 <= k < |kept| ==> kept[k] < |frames|
  {
    && q <= |kept|
    && (q > 0 ==> frames[kept[q - 1]].offsetNs > offsetNs)
    && (q < |kept| ==> frames[kept[q]].offsetNs <= offsetNs)
  }

  /** Adding a frame pops the kept frames it is at least as late as. */
  lemma {:induction false} PushBack(frames: seq<Frame>, from: nat, frame: Frame, q: nat)
    requires from <= |frames| && IsCut(frames, Kept(frames, from), frame.offsetNs, q)
    ensures Kept(frames + [frame], from) == Kept(frames, from)[..q] + [|frames|]
    decreases |frames| - from
  {
    if from == |frames| {
      assert Kept(frames + [frame], from + 1) == [];
    } else {
      var rest := Kept(frames, from + 1);
      var later := CutOfRest(frames, from, rest, frame.offsetNs, q);
      PushBack(frames, from + 1, frame, later);
      PushInFront(frames, from, frame, rest, later, q);
    }
  }

  lemma CutOfRest(frames: seq<Frame>, from: nat, rest: seq<nat>, offsetNs: int, q: nat) returns (later: nat)
    requires from < |frames| && forall k :: 0 <= k < |rest| ==> from < rest[k] < |frames|
    requires IsCut(frames, InFront(frames, from, rest), offsetNs, q)
    ensures later == if InFront(frames, from, rest) == rest || q == 0 then q else q - 1
    ensures IsCut(frames, rest, offsetNs, later)
  {
    later := if InFront(frames, from, rest) == rest || q == 0 then q else q - 1;
    if InFront(frames, from, rest) != rest {
      assert InFront(frames, from, rest) == [from] + rest;
    }
  }

  lemma PushInFront(frames: seq<Frame>, from: nat, frame: Frame, rest: seq<nat>, later: nat, q: nat)
    requires from < |frames| && (forall k :: 0 <= k < |rest| ==> from < rest[k] < |frames|)
    requires var kept := InFront(frames, from, rest);
             later == (if kept == rest || q == 0 then q else q - 1) && IsCut(frames, kept, frame.offsetNs, q)
    ensures InFront(frames + [frame], from, rest[..later] + [|frames|]) == InFront(frames, from, rest)[..q] + [|frames|]
  {
    if InFront(frames, from, rest) != rest {
      assert InFront(frames, from, rest)[..q] == if q == 0 then [] else [from] + rest[..later];
    }
  }

  lemma HeldAppend(frames: seq<Frame>, kept: seq<nat>, i: nat)
    requires i < |frames| && forall k :: 0 <= k < |kept| ==> kept[k] < |frames|
    ensures Held(frames, kept + [i]) == Held(frames, kept) + [MaybeLateFrame(frames[i].offsetNs, ArrivalAt(frames, i + 1))]
  {
  }

  lemma HeldTail(frames: seq<Frame>, kept: seq<nat>)
    requires kept != [] && forall k :: 0 <= k < |kept| ==> kept[k] < |frames|
    ensures Held(frames, kept)[1..] == Held(frames, kept[1..])
  {
  }

  /** The deque after the pops and the push is the one the longer run asks for. */
  lemma {:induction false} HeldAfterPush(frames: seq<Frame>, from: nat, frame: Frame, q: nat)
    requires from <= |frames| && q <= |Kept(frames, from)|
    requires q > 0 ==> frames[Kept(frames, from)[q - 1]].offsetNs > frame.offsetNs
    requires q < |Kept(frames, from)| ==> frames[Kept(frames, from)[q]].offsetNs <= frame.offsetNs
    ensures var all := frames + [frame];
            Held(all, Kept(all, from)) == Held(all, Kept(frames, from)[..q]) + [MaybeLateFrame(frame.offsetNs, None)]
  {
    var all, kept := frames + [frame], Kept(frames, from);
    PushBack(frames, from, frame, q);
    HeldAppend(all, kept[..q], |frames|);
  }

  /** Only the newest frame, at the back, has no frame after it yet. */
  lemma {:induction false} BackIsNewest(frames: seq<Frame>, from: nat)
    requires from <= |frames|
    ensures forall k :: 0 <= k < |Kept(frames, from)| ==>
              (Kept(frames, from)[k] == |frames| - 1 <==> k == |Kept(frames, from)| - 1)
    decreases |frames| - from
  {
    if from < |frames| {
      BackIsNewest(frames, from + 1);
      var kept, rest := Kept(frames, from), Kept(frames, from + 1);
      if kept != rest {
        assert kept == [from] + rest;
        if from + 1 < |frames| {
          FrontIsLatest(frames, from + 1, from + 1);
        }
      }
    }
  }

  /** The newest frame gives the back its next arrival; no other held frame changes. */
  lemma {:induction false} BackLearnsNextArrival(frames: seq<Frame>, from: nat, frame: Frame)
    requires from <= |frames|
    ensures var kept := Kept(frames, from);
            var before, after := Held(frames, kept), Held(frames + [frame], kept);
            after == if kept == [] then before
                     else before[|kept| - 1 := before[|kept| - 1].(nextArrival := Some(frame.arrival))]
  {
    BackIsNewest(frames, from);
  }

  /** A frame that was late stays late when the run goes on. */
  lemma {:induction false} LateStaysLate(frames: seq<Frame>, frame: Frame)
    ensures var from := OnTimeFrom(frames, |frames|);
            from > 0 ==> IsLate(frames + [frame], from - 1)
  {
    assert (frames + [frame])[..|frames|] == frames;
    OnTimeFromIs(frames, |frames|, OnTimeFrom(frames, |frames|));
  }

  /** How the deque and the start stand between frames. */
  ghost predicate Settled(frames: seq<Frame>, from: nat, deque: seq<MaybeLateFrame>, start: Option<real>) {
    && from == OnTimeFrom(frames, |frames|)
    && deque == Held(frames, Kept(frames, from))
    && start == ArrivalAt(frames, from)
  }

  /** Popping can stop once the front of the deque is not late. */
  lemma {:induction false} FrontDecides(frames: seq<Frame>, from: nat, deque: seq<MaybeLateFrame>, start: Option<real>)
    requires from <= |frames|
    requires from > 0 ==> IsLate(frames, from - 1)
    requires deque == Held(frames, Kept(frames, from)) && start == ArrivalAt(frames, from)
    requires deque != [] ==> deque[0].offsetNs - OnTimeOffset(frames) <= LATE_FRAME_NS
    ensures Settled(frames, from, deque, start)
  {
    forall i | from <= i < |frames|
      ensures !IsLate(frames, i)
    {
      FrontIsLatest(frames, from, i);
    }
    OnTimeFromIs(frames, |frames|, from);
  }

  /** Popping a late front moves the start to the frame after it. */
  lemma PopLateFront(frames: seq<Frame>, from: nat, deque: seq<MaybeLateFrame>) returns (front: nat)
    requires from <= |frames| && frames != []
    requires deque == Held(frames, Kept(frames, from)) && deque != []
    requires deque[0].offsetNs - OnTimeOffset(frames) > LATE_FRAME_NS
    ensures from < front <= |frames| && IsLate(frames, front - 1)
    ensures deque[1..] == Held(frames, Kept(frames, front)) && deque[0].nextArrival == ArrivalAt(frames, front)
  {
    var kept := Kept(frames, from);
    front := kept[0] + 1;
    PopFront(frames, from);
    HeldTail(frames, kept);
  }

  // ----- the run as the checks hold it -----

  /** What a run means: its good frames so far, and the offsets gathered since they were last read. */
  datatype Run = Run(frames: seq<Frame>, video: OffsetMean, audio: OffsetMean) {
    function AddGoodFrame(offsetNs: int, arrival: real): Run {
      this.(frames := frames + [Frame(offsetNs, arrival)], video := video.Add(offsetNs))
    }

    function Start(): Option<real> {
      RunStart(frames)
    }

    function Last(): real {
      if frames == [] then 0.0 else frames[|frames| - 1].arrival
    }
  }

  const EMPTY_RUN := Run([], NO_OFFSETS, NO_OFFSETS)

  class CleanRun {
    var start: Option<real>
    var last: real
    var onTimeOffsetNs: Option<int>
    // later than every frame after them
    var maybeLate: seq<MaybeLateFrame>
    var videoOffset: OffsetMean
    var audioOffset: OffsetMean

    ghost var frames: seq<Frame>
    // one past the run's last late frame
    ghost var onTimeFrom: nat
    ghost var pops: nat

    ghost predicate Valid()
      reads this
    {
      && Settled(frames, onTimeFrom, maybeLate, start)
      && last == Model().Last()
      && onTimeOffsetNs == (if frames == [] then None else Some(OnTimeOffset(frames)))
      && pops + |maybeLate| == |frames|
    }

    ghost function Model(): Run
      reads this
    {
      Run(frames, videoOffset, audioOffset)
    }

    constructor ()
      ensures Valid() && Model() == EMPTY_RUN
    {
      start, last, onTimeOffsetNs, maybeLate := None, 0.0, None, [];
      videoOffset, audioOffset := NO_OFFSETS, NO_OFFSETS;
      frames, onTimeFrom, pops := [], 0, 0;
    }

    method AddGoodFrame(offsetNs: int, arrivalUnix: real)
      requires Valid()
      modifies this
      ensures Model() == old(Model()).AddGoodFrame(offsetNs, arrivalUnix)
      ensures Valid()
    {
      LateStaysLate(frames, Frame(offsetNs, arrivalUnix));
      Admit(offsetNs, arrivalUnix);
      onTimeFrom := PopLate(onTimeOffsetNs.value, frames, onTimeFrom);
    }

    // everything but the pops from the front
    method Admit(offsetNs: int, arrivalUnix: real)
      requires Valid()
      modifies this`start, this`last, this`onTimeOffsetNs, this`maybeLate, this`videoOffset, this`frames, this`pops
      ensures frames == old(frames) + [Frame(offsetNs, arrivalUnix)]
      ensures last == arrivalUnix && videoOffset == old(videoOffset).Add(offsetNs)
      ensures start == ArrivalAt(frames, onTimeFrom) && onTimeOffsetNs == Some(OnTimeOffset(frames))
      ensures maybeLate == Held(frames, Kept(frames, onTimeFrom)) && pops + |maybeLate| == |frames|
    {
      Receive(offsetNs, arrivalUnix);
      PushLast(offsetNs, Frame(offsetNs, arrivalUnix));
      frames := frames + [Frame(offsetNs, arrivalUnix)];
    }

    method PushLast(offsetNs: int, ghost newest: Frame)
      requires newest.offsetNs == offsetNs && onTimeFrom <= |frames|
      requires maybeLate == Held(frames + [newest], Kept(frames, onTimeFrom))
      modifies this`maybeLate, this`pops
      ensures maybeLate == Held(frames + [newest], Kept(frames + [newest], onTimeFrom))
      ensures pops + |maybeLate| == old(pops + |maybeLate|) + 1
    {
      ghost var q := PopBack(offsetNs, frames + [newest], Kept(frames, onTimeFrom));
      HeldAfterPush(frames, onTimeFrom, newest, q);
      maybeLate := maybeLate + [MaybeLateFrame(offsetNs, None)];
    }

    // every field but the deque's order: the frame before learns this arrival, the run counts this frame
    method Receive(offsetNs: int, arrivalUnix: real)
      requires Valid()
      modifies this`start, this`last, this`onTimeOffsetNs, this`maybeLate, this`videoOffset
      ensures var all := frames + [Frame(offsetNs, arrivalUnix)];
              && start == ArrivalAt(all, onTimeFrom)
              && onTimeOffsetNs == Some(OnTimeOffset(all))
              && maybeLate == Held(all, Kept(frames, onTimeFrom))
      ensures last == arrivalUnix && videoOffset == old(videoOffset).Add(offsetNs)
      ensures |maybeLate| == |old(maybeLate)|
    {
      ghost var all := frames + [Frame(offsetNs, arrivalUnix)];
      assert all[..|frames|] == frames;
      BackLearnsNextArrival(frames, onTimeFrom, Frame(offsetNs, arrivalUnix));
      if maybeLate != [] {
        var back := |maybeLate| - 1;
        maybeLate := maybeLate[back := maybeLate[back].(nextArrival := Some(arrivalUnix))];
      }
      if start.None? {
        start := Some(arrivalUnix);
      }
      last := arrivalUnix;
      videoOffset := videoOffset.Add(offsetNs);
      var onTime := if onTimeOffsetNs.Some? then Min(onTimeOffsetNs.value, offsetNs) else offsetNs;
      onTimeOffsetNs := Some(onTime);
    }

    // whatever is not later than the new frame cannot be late on its own
    method PopBack(offsetNs: int, ghost all: seq<Frame>, ghost held: seq<nat>) returns (ghost q: nat)
      requires forall k :: 0 <= k < |held| ==> held[k] < |all|
      requires maybeLate == Held(all, held)
      modifies this`maybeLate, this`pops
      ensures q <= |held| && maybeLate == Held(all, held[..q])
      ensures q > 0 ==> all[held[q - 1]].offsetNs > offsetNs
      ensures q < |held| ==> all[held[q]].offsetNs <= offsetNs
      ensures pops + |maybeLate| == old(pops + |maybeLate|)
    {
      q := |held|;
      assert held[..q] == held;
      while maybeLate != [] && maybeLate[|maybeLate| - 1].offsetNs <= offsetNs
        invariant q <= |held| && maybeLate == Held(all, held[..q])
        invariant q < |held| ==> all[held[q]].offsetNs <= offsetNs
        invariant pops + |maybeLate| == old(pops + |maybeLate|)
        decreases |maybeLate|
      {
        maybeLate := maybeLate[..|maybeLate| - 1];
        q, pops := q - 1, pops + 1;
      }
    }

    // pops the late frames at the front, the run starts at the frame after the last of them
    method PopLate(onTime: int, ghost all: seq<Frame>, ghost from: nat) returns (ghost front: nat)
      requires all != [] && onTime == OnTimeOffset(all)
      requires from <= |all| && (from > 0 ==> IsLate(all, from - 1))
      requires maybeLate == Held(all, Kept(all, from)) && start == ArrivalAt(all, from)
      modifies this`start, this`maybeLate, this`pops
      ensures Settled(all, front, maybeLate, start)
      ensures pops + |maybeLate| == old(pops + |maybeLate|)
    {
      front := from;
      while maybeLate != [] && maybeLate[0].offsetNs - onTime > LATE_FRAME_NS
        invariant front <= |all| && (front > 0 ==> IsLate(all, front - 1))
        invariant maybeLate == Held(all, Kept(all, front)) && start == ArrivalAt(all, front)
        invariant pops + |maybeLate| == old(pops + |maybeLate|)
        decreases |maybeLate|
      {
        front := PopLateFront(all, front, maybeLate);
        start := maybeLate[0].nextArrival;
        maybeLate := maybeLate[1..];
        pops := pops + 1;
      }
      FrontDecides(all, front, maybeLate, start);
    }
  }
}
