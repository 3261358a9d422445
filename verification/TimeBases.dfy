/** Ticks of a stream time base and nanoseconds, crates/calliope-core/src/timestamps.rs. */
module TimeBases {
  import opened Prelude

  const NANOSECONDS_PER_SECOND: nat := 1_000_000_000

  /** A tick lasts numerator / denominator seconds. Neither is zero, parsing refuses that. */
  datatype TimeBase = TimeBase(numerator: nat, denominator: nat) {
    ghost predicate Valid() {
      numerator > 0 && denominator > 0
    }

    /** How many nanoseconds `denominator` ticks last. */
    function TickNsTimesDenominator(): (r: nat)
      ensures numerator > 0 ==> r > 0
    {
      numerator * NANOSECONDS_PER_SECOND
    }

    /** A tick lasts two nanoseconds or more. */
    ghost predicate TickIsTwoNsOrMore() {
      TickNsTimesDenominator() >= 2 * denominator
    }
  }

  // ----- rounding a quotient half up -----

  function RoundHalfUp(n: nat, d: nat): nat
    requires d > 0
  {
    (2 * n + d) / (2 * d)
  }

  /** k is nearest to n/d, and is the greater one if n/d is right between two integers. */
  predicate IsNearest(n: nat, d: nat, k: int) {
    2 * (k * d) - d <= 2 * n < 2 * (k * d) + d
  }

  lemma RoundsToNearest(n: nat, d: nat, k: int)
    requires d > 0
    ensures RoundHalfUp(n, d) == k <==> IsNearest(n, d, k)
  {
    QuotientIs(2 * n + d, 2 * d, k);
    assert k * (2 * d) == 2 * (k * d);
  }

  lemma RoundingIsMonotone(n: nat, m: nat, d: nat)
    requires d > 0 && n <= m
    ensures RoundHalfUp(n, d) <= RoundHalfUp(m, d)
  {
    var j, k := RoundHalfUp(n, d), RoundHalfUp(m, d);
    RoundsToNearest(n, d, j);
    RoundsToNearest(m, d, k);
    if j > k {
      MultiplesAreApart(k, j, d);
    }
  }

  lemma RoundingCommutesWithWholes(n: nat, m: nat, d: nat, whole: int)
    requires d > 0 && m == n + whole * d
    ensures RoundHalfUp(m, d) == RoundHalfUp(n, d) + whole
  {
    var k := RoundHalfUp(n, d);
    RoundsToNearest(n, d, k);
    RoundsToNearest(m, d, k + whole);
    assert (k + whole) * d == k * d + whole * d;
  }

  // ----- ticks -----

  /** Which tick these nanoseconds are taken for. */
  function NearestTick(timeBase: TimeBase, nanoseconds: nat): nat
    requires timeBase.Valid()
  {
    RoundHalfUp(nanoseconds * timeBase.denominator, timeBase.TickNsTimesDenominator())
  }

  /** The tick is at most half a tick away, and is the later one of two equally near. */
  lemma WithinHalfATick(timeBase: TimeBase, ns: nat, tick: int)
    requires timeBase.Valid()
    ensures var perTick := timeBase.numerator * 1_000_000_000;
            var past := ns * timeBase.denominator - tick * perTick;
            NearestTick(timeBase, ns) == tick <==> -perTick <= 2 * past < perTick
  {
    RoundsToNearest(ns * timeBase.denominator, timeBase.TickNsTimesDenominator(), tick);
  }

  lemma LaterIsNoEarlierTick(timeBase: TimeBase, ns: nat, later: nat)
    requires timeBase.Valid() && ns <= later
    ensures NearestTick(timeBase, ns) <= NearestTick(timeBase, later)
  {
    assert later * timeBase.denominator == ns * timeBase.denominator + (later - ns) * timeBase.denominator;
    RoundingIsMonotone(ns * timeBase.denominator, later * timeBase.denominator, timeBase.TickNsTimesDenominator());
  }

  /** A shift in nanoseconds that is this many ticks exactly. */
  ghost predicate IsWholeTicks(timeBase: TimeBase, shiftNs: int, ticks: int) {
    shiftNs * timeBase.denominator == ticks * timeBase.TickNsTimesDenominator()
  }

  lemma WholeTicksCarryOver(timeBase: TimeBase, ns: nat, shiftNs: int, ticks: int)
    requires timeBase.Valid() && IsWholeTicks(timeBase, shiftNs, ticks) && ns + shiftNs >= 0
    ensures NearestTick(timeBase, ns + shiftNs) == NearestTick(timeBase, ns) + ticks
  {
    assert (ns + shiftNs) * timeBase.denominator == ns * timeBase.denominator + shiftNs * timeBase.denominator;
    RoundingCommutesWithWholes(ns * timeBase.denominator, (ns + shiftNs) * timeBase.denominator,
                               timeBase.TickNsTimesDenominator(), ticks);
  }

  // ----- ticks to nanoseconds and back -----

  /** A tick in nanoseconds, cut off to a whole one. */
  function Truncated(timeBase: TimeBase, tick: nat): nat
    requires timeBase.Valid()
  {
    (tick * timeBase.TickNsTimesDenominator()) / timeBase.denominator
  }

  /** What cutting off takes away, times the denominator. */
  function CutOff(timeBase: TimeBase, tick: nat): (r: nat)
    requires timeBase.Valid()
    ensures r < timeBase.denominator
  {
    (tick * timeBase.TickNsTimesDenominator()) % timeBase.denominator
  }

  /** A tick in nanoseconds, rounded up to a whole one. */
  function RoundedUp(timeBase: TimeBase, tick: nat): nat
    requires timeBase.Valid()
  {
    if CutOff(timeBase, tick) == 0 then Truncated(timeBase, tick) else Truncated(timeBase, tick) + 1
  }

  lemma TruncatedPlusCutOff(timeBase: TimeBase, tick: nat)
    requires timeBase.Valid()
    ensures Truncated(timeBase, tick) * timeBase.denominator + CutOff(timeBase, tick)
            == tick * timeBase.TickNsTimesDenominator()
  {
    var whole, d := tick * timeBase.TickNsTimesDenominator(), timeBase.denominator;
    assert whole == (whole / d) * d + whole % d;
  }

  lemma NearestIfBelow(n: nat, d: nat, tick: nat, cut: nat)
    requires d > 0 && n + cut == tick * d
    ensures RoundHalfUp(n, d) == tick <==> 2 * cut <= d
  {
    RoundsToNearest(n, d, tick);
  }

  lemma NearestIfAbove(n: nat, d: nat, tick: nat, added: nat)
    requires d > 0 && n == tick * d + added
    ensures RoundHalfUp(n, d) == tick <==> 2 * added < d
  {
    RoundsToNearest(n, d, tick);
  }

  /** A tick survives truncation exactly when no more than half a tick is cut off. */
  lemma TruncationComesBack(timeBase: TimeBase, tick: nat)
    requires timeBase.Valid()
    ensures NearestTick(timeBase, Truncated(timeBase, tick)) == tick
            <==> 2 * CutOff(timeBase, tick) <= timeBase.TickNsTimesDenominator()
  {
    TruncatedPlusCutOff(timeBase, tick);
    NearestIfBelow(Truncated(timeBase, tick) * timeBase.denominator, timeBase.TickNsTimesDenominator(), tick,
                   CutOff(timeBase, tick));
  }

  /** A tick survives rounding up exactly when it is whole already or less than half a tick is added. */
  lemma RoundingUpComesBack(timeBase: TimeBase, tick: nat)
    requires timeBase.Valid()
    ensures NearestTick(timeBase, RoundedUp(timeBase, tick)) == tick
            <==> CutOff(timeBase, tick) == 0
                 || 2 * (timeBase.denominator - CutOff(timeBase, tick)) < timeBase.TickNsTimesDenominator()
  {
    TruncatedPlusCutOff(timeBase, tick);
    var cut, whole := CutOff(timeBase, tick), Truncated(timeBase, tick) * timeBase.denominator;
    if cut == 0 {
      NearestIfAbove(whole, timeBase.TickNsTimesDenominator(), tick, 0);
    } else {
      assert (Truncated(timeBase, tick) + 1) * timeBase.denominator == whole + timeBase.denominator;
      NearestIfAbove(whole + timeBase.denominator, timeBase.TickNsTimesDenominator(), tick, timeBase.denominator - cut);
    }
  }

  /** With ticks of two nanoseconds or more, every tick survives both. */
  lemma LongTicksComeBack(timeBase: TimeBase, tick: nat)
    requires timeBase.Valid() && timeBase.TickIsTwoNsOrMore()
    ensures NearestTick(timeBase, Truncated(timeBase, tick)) == tick
    ensures NearestTick(timeBase, RoundedUp(timeBase, tick)) == tick
  {
    TruncationComesBack(timeBase, tick);
    RoundingUpComesBack(timeBase, tick);
  }

  /** With ticks of 1.2 ns, tick 1 is rounded up to 2 ns, and tick 2 is the nearest to that. */
  lemma ShortTicksGetLost()
    ensures var short := TimeBase(3, 2_500_000_000);
            short.Valid() && !short.TickIsTwoNsOrMore()
            && RoundedUp(short, 1) == 2 && NearestTick(short, RoundedUp(short, 1)) == 2
  {
    var short := TimeBase(3, 2_500_000_000);
    assert short.TickNsTimesDenominator() == 3_000_000_000;
    assert CutOff(short, 1) == 500_000_000 && Truncated(short, 1) == 1;
  }

  // ----- two decodes of the same ticks -----

  predicate Agree(timeBase: TimeBase, left: Option<nat>, right: Option<nat>)
    requires timeBase.Valid()
  {
    if left.Some? && right.Some? then NearestTick(timeBase, left.value) == NearestTick(timeBase, right.value)
    else left.None? && right.None?
  }

  predicate SameTicks(timeBase: TimeBase, left: seq<Option<nat>>, right: seq<Option<nat>>)
    requires timeBase.Valid()
  {
    |left| == |right| && forall i :: 0 <= i < |left| ==> Agree(timeBase, left[i], right[i])
  }

  /** A decode of these ticks, each truncated or rounded up as the decoder likes. */
  ghost predicate Decodes(timeBase: TimeBase, ticks: seq<Option<nat>>, pts: seq<Option<nat>>)
    requires timeBase.Valid()
  {
    && |pts| == |ticks|
    && forall i :: 0 <= i < |ticks| ==> DecodesOne(timeBase, ticks[i], pts[i])
  }

  ghost predicate DecodesOne(timeBase: TimeBase, tick: Option<nat>, pts: Option<nat>)
    requires timeBase.Valid()
  {
    match tick
    case None => pts == None
    case Some(t) => pts == Some(Truncated(timeBase, t)) || pts == Some(RoundedUp(timeBase, t))
  }

  /** Two decodes have the same ticks exactly when they decode the same ticks, however each of them rounds. */
  lemma SameTicksUpToRounding(timeBase: TimeBase, leftTicks: seq<Option<nat>>, left: seq<Option<nat>>,
                              rightTicks: seq<Option<nat>>, right: seq<Option<nat>>)
    requires timeBase.Valid() && timeBase.TickIsTwoNsOrMore()
    requires Decodes(timeBase, leftTicks, left) && Decodes(timeBase, rightTicks, right)
    ensures SameTicks(timeBase, left, right) <==> leftTicks == rightTicks
  {
    if |left| == |right| {
      forall i | 0 <= i < |left|
        ensures Agree(timeBase, left[i], right[i]) <==> leftTicks[i] == rightTicks[i]
      {
        TicksOfDecoded(timeBase, leftTicks[i], left[i]);
        TicksOfDecoded(timeBase, rightTicks[i], right[i]);
      }
    }
  }

  lemma TicksOfDecoded(timeBase: TimeBase, tick: Option<nat>, pts: Option<nat>)
    requires timeBase.Valid() && timeBase.TickIsTwoNsOrMore() && DecodesOne(timeBase, tick, pts)
    ensures tick == if pts.None? then None else Some(NearestTick(timeBase, pts.value))
  {
    if tick.Some? {
      LongTicksComeBack(timeBase, tick.value);
    }
  }
}
