/** Delta-debugging minimizer, crates/calliope-core/src/minimize.rs. The predicate is an oracle asked once
    for each call, so it may answer differently when asked again. */
module Minimize {
  import opened Prelude
  import opened Subsequences

  type Byte = bv8

  /** What the n-th call answers for a candidate. */
  type Oracle = (nat, seq<Byte>) -> bool

  ghost predicate Deterministic(stillFails: Oracle, fails: seq<Byte> -> bool) {
    forall n: nat, candidate: seq<Byte> :: stillFails(n, candidate) == fails(candidate)
  }

  /** Adding bytes keeps a failure, between subsequences of `within`. */
  ghost predicate UpwardClosed(fails: seq<Byte> -> bool, within: seq<Byte>) {
    forall s: seq<Byte>, t: seq<Byte> :: IsSubsequence(s, t) && IsSubsequence(t, within) && fails(s) ==> fails(t)
  }

  /** The oracle confirmed `result` in one of the first `calls` calls. */
  ghost predicate Confirmed(stillFails: Oracle, calls: nat, result: seq<Byte>) {
    exists n: nat :: n < calls && stillFails(n, result)
  }

  /** Dropping position i alone no longer fails. */
  ghost predicate Needed(fails: seq<Byte> -> bool, s: seq<Byte>, i: nat)
    requires i < |s|
  {
    |s| > 1 ==> !fails(Without(s, i, i + 1))
  }

  ghost predicate OneMinimal(fails: seq<Byte> -> bool, s: seq<Byte>, upTo: nat)
    requires upTo <= |s|
  {
    forall i: nat :: i < upTo ==> Needed(fails, s, i)
  }

  ghost predicate Minimal(fails: seq<Byte> -> bool, s: seq<Byte>) {
    forall r: seq<Byte> :: r != [] && |r| < |s| && IsSubsequence(r, s) ==> !fails(r)
  }

  /** How much of `len` bytes is left from position i on. */
  function Left(len: nat, i: nat): nat {
    if i < len then len - i else 0
  }

  /** How many runs of `chunk` bytes it takes to cover `len` bytes. */
  function Chunks(len: nat, chunk: nat): nat
    requires chunk > 0
    decreases len
  {
    if len == 0 then 0 else 1 + Chunks(Left(len, chunk), chunk)
  }

  lemma {:induction false} ChunksIsCeiling(len: nat, chunk: nat)
    requires chunk > 0
    ensures Chunks(len, chunk) == (len + chunk - 1) / chunk
    decreases len
  {
    if len == 0 {
      QuotientIs(chunk - 1, chunk, 0);
    } else if len <= chunk {
      assert Left(len, chunk) == 0;
      QuotientIs(len + chunk - 1, chunk, 1);
    } else {
      ChunksIsCeiling(len - chunk, chunk);
      OneMoreFits(len - 1, chunk);
      assert len - chunk + chunk - 1 == len - 1;
    }
  }

  lemma OneMoreFits(x: nat, d: nat)
    requires d > 0
    ensures (x + d) / d == x / d + 1
  {
    var q := x / d;
    assert x == q * d + x % d;
    assert (q + 1) * d == q * d + d && (q + 2) * d == q * d + 2 * d;
    QuotientIs(x + d, d, q + 1);
  }

  lemma {:induction false} MoreBytesMoreChunks(len: nat, n: nat, chunk: nat)
    requires len <= n && chunk > 0
    ensures Chunks(len, chunk) <= Chunks(n, chunk)
  {
    if len > 0 {
      MoreBytesMoreChunks(Left(len, chunk), Left(n, chunk), chunk);
    }
  }

  /** A byte kept by the pass stays needed when later bytes go, once failures are upward closed. */
  lemma NeededLater(fails: seq<Byte> -> bool, within: seq<Byte>, before: seq<Byte>, after: seq<Byte>, i: nat)
    requires UpwardClosed(fails, within) && IsSubsequence(before, within)
    requires i < |after| && i < |before| && after[..i + 1] == before[..i + 1]
    requires IsSubsequence(after[i + 1..], before[i + 1..])
    requires Needed(fails, before, i) && |after| > 1
    ensures Needed(fails, after, i)
  {
    NoLonger(after[i + 1..], before[i + 1..]);
    PrependBoth(before[..i], after[i + 1..], before[i + 1..]);
    assert after[..i] == before[..i];
    assert IsSubsequence(Without(after, i, i + 1), Without(before, i, i + 1));
    WithoutIsSubsequence(before, i, i + 1);
    Transitive(Without(before, i, i + 1), before, within);
  }

  lemma TailKeepsSubsequence(s: seq<Byte>, i: nat, end: nat, j: nat)
    requires j <= i <= end <= |s|
    ensures IsSubsequence(Without(s, i, end)[j..], s[j..])
  {
    WithoutIsSubsequence(s[j..], i - j, end - j);
    assert Without(s, i, end)[j..] == Without(s[j..], i - j, end - j);
  }

  /** Removing the byte at i keeps the bytes before it needed. */
  lemma RemovalKeepsNeeded(fails: seq<Byte> -> bool, within: seq<Byte>, current: seq<Byte>, i: nat)
    requires UpwardClosed(fails, within) && IsSubsequence(current, within)
    requires i < |current| && OneMinimal(fails, current, i)
    ensures OneMinimal(fails, Without(current, i, i + 1), i)
  {
    var candidate := Without(current, i, i + 1);
    forall j: nat | j < i && |candidate| > 1
      ensures Needed(fails, candidate, j)
    {
      TailKeepsSubsequence(current, i, i + 1, j + 1);
      NeededLater(fails, within, current, candidate, j);
    }
  }

  /** What a pass makes of `current` from position i on, when the oracle is a predicate. */
  function PassFrom(fails: seq<Byte> -> bool, current: seq<Byte>, i: nat, chunk: nat): (r: seq<Byte>)
    requires chunk > 0
    ensures current != [] ==> r != []
    decreases Left(|current|, i)
  {
    if i >= |current| then current
    else
      var candidate := Without(current, i, Min(i + chunk, |current|));
      if candidate != [] && fails(candidate) then PassFrom(fails, candidate, i, chunk)
      else PassFrom(fails, current, i + chunk, chunk)
  }

  /** The passes at `chunk`, half of it, and so on down to single bytes. */
  function Passes(fails: seq<Byte> -> bool, current: seq<Byte>, chunk: nat): seq<Byte>
    requires chunk > 0
    decreases chunk
  {
    var reduced := PassFrom(fails, current, 0, chunk);
    if chunk == 1 then reduced else Passes(fails, reduced, chunk / 2)
  }

  function Minimized(fails: seq<Byte> -> bool, initial: seq<Byte>): seq<Byte> {
    if |initial| <= 1 then initial else Passes(fails, initial, |initial| / 2)
  }

  /** What a step of a pass keeps when the oracle is an upward closed predicate: the bytes before i are needed. */
  ghost predicate NeededSoFar(stillFails: Oracle, fails: seq<Byte> -> bool, within: seq<Byte>, current: seq<Byte>,
                              i: nat) {
    Deterministic(stillFails, fails) && UpwardClosed(fails, within) ==> i <= |current| && OneMinimal(fails, current, i)
  }

  ghost predicate IsOneChunkLess(left: nat, before: nat, chunk: nat)
    requires chunk > 0
  {
    Chunks(left, chunk) + 1 == Chunks(before, chunk)
  }

  /** Both removing a run and stepping over it leave one run less. */
  lemma OneChunkLess(len: nat, i: nat, chunk: nat)
    requires i < len && chunk > 0
    ensures IsOneChunkLess(Left(len, i + chunk), Left(len, i), chunk)
    ensures Left(len - (Min(i + chunk, len) - i), i) == Left(len, i + chunk)
  {
    assert Left(Left(len, i), chunk) == Left(len, i + chunk);
  }

  /** A pass goes on with the run removed if that still fails, and behind the run if not. */
  lemma PassGoesOn(fails: seq<Byte> -> bool, current: seq<Byte>, i: nat, chunk: nat)
    requires i < |current| && chunk > 0
    ensures var candidate := Without(current, i, Min(i + chunk, |current|));
            PassFrom(fails, current, i, chunk)
            == if candidate != [] && fails(candidate) then PassFrom(fails, candidate, i, chunk)
               else PassFrom(fails, current, i + chunk, chunk)
  {
  }

  /** Whether the run was removed as a predicate would have it. */
  lemma RunsAgree(stillFails: Oracle, fails: seq<Byte> -> bool, current: seq<Byte>, i: nat, chunk: nat, call: nat,
                  removed: bool)
    requires i < |current| && chunk > 0
    requires var candidate := Without(current, i, Min(i + chunk, |current|));
             removed == (candidate != [] && stillFails(call, candidate))
    ensures var candidate := Without(current, i, Min(i + chunk, |current|));
            Deterministic(stillFails, fails) ==>
              PassFrom(fails, current, i, chunk)
              == if removed then PassFrom(fails, candidate, i, chunk) else PassFrom(fails, current, i + chunk, chunk)
  {
    PassGoesOn(fails, current, i, chunk);
  }

  /** If the bytes before i are needed, they are so in what is left, and a byte that is kept is needed too. */
  lemma StaysNeeded(stillFails: Oracle, fails: seq<Byte> -> bool, within: seq<Byte>, current: seq<Byte>, i: nat,
                    call: nat, removed: bool)
    requires i < |current| && IsSubsequence(current, within) && NeededSoFar(stillFails, fails, within, current, i)
    requires var candidate := Without(current, i, i + 1);
             removed == (candidate != [] && stillFails(call, candidate))
    ensures if removed then NeededSoFar(stillFails, fails, within, Without(current, i, i + 1), i)
            else NeededSoFar(stillFails, fails, within, current, i + 1)
  {
    if removed && Deterministic(stillFails, fails) && UpwardClosed(fails, within) {
      assert stillFails(call, Without(current, i, i + 1));
      RemovalKeepsNeeded(fails, within, current, i);
    }
  }

  /** Asks the oracle about `current` without the run at i, unless nothing would be left, and goes on from there. */
  method TryWithout(current: seq<Byte>, i: nat, chunk: nat, stillFails: Oracle, call: nat,
                    ghost fails: seq<Byte> -> bool, ghost within: seq<Byte>)
    returns (next: seq<Byte>, at: nat, calls: nat)
    requires i < |current| && chunk > 0 && IsSubsequence(current, within)
    ensures next != [] && IsSubsequence(next, current) && Left(|next|, at) < Left(|current|, i)
    ensures call <= calls <= call + 1 && IsOneChunkLess(Left(|next|, at), Left(|current|, i), chunk)
    ensures next == current || Confirmed(stillFails, calls, next)
    ensures Deterministic(stillFails, fails) ==> PassFrom(fails, next, at, chunk) == PassFrom(fails, current, i, chunk)
    ensures chunk == 1 && NeededSoFar(stillFails, fails, within, current, i)
            ==> NeededSoFar(stillFails, fails, within, next, at)
  {
    var end := Min(i + chunk, |current|);
    var candidate, removed := Without(current, i, end), false;
    OneChunkLess(|current|, i, chunk);
    calls := call;
    if candidate != [] {
      removed := stillFails(calls, candidate);
      calls := calls + 1;
    }
    RunsAgree(stillFails, fails, current, i, chunk, call, removed);
    if chunk == 1 && NeededSoFar(stillFails, fails, within, current, i) {
      StaysNeeded(stillFails, fails, within, current, i, call, removed);
    }
    if removed {
      WithoutIsSubsequence(current, i, end);
      next, at := candidate, i;
    } else {
      Reflexive(current);
      next, at := current, i + chunk;
    }
  }

  /** One pass at `chunk`: removes runs while the oracle confirms, at most ceil(len / chunk) calls. */
  method Pass(initial: seq<Byte>, chunk: nat, stillFails: Oracle, firstCall: nat, ghost fails: seq<Byte> -> bool,
              ghost within: seq<Byte>)
    returns (current: seq<Byte>, calls: nat)
    requires initial != [] && chunk > 0 && IsSubsequence(initial, within)
    ensures current != [] && IsSubsequence(current, initial)
    ensures firstCall <= calls <= firstCall + Chunks(|initial|, chunk)
    ensures current == initial || Confirmed(stillFails, calls, current)
    ensures Deterministic(stillFails, fails) ==> current == PassFrom(fails, initial, 0, chunk)
    ensures chunk == 1 ==> NeededSoFar(stillFails, fails, within, current, |current|)
  {
    current, calls := initial, firstCall;
    var i: nat := 0;
    Reflexive(initial);
    while i < |current|
      invariant current != [] && IsSubsequence(current, initial)
      invariant firstCall <= calls && calls + Chunks(Left(|current|, i), chunk) <= firstCall + Chunks(|initial|, chunk)
      invariant current == initial || Confirmed(stillFails, calls, current)
      invariant Deterministic(stillFails, fails) ==>
                  PassFrom(fails, current, i, chunk) == PassFrom(fails, initial, 0, chunk)
      invariant chunk == 1 ==> NeededSoFar(stillFails, fails, within, current, i)
      decreases Left(|current|, i)
    {
      Transitive(current, initial, within);
      var next, at, more := TryWithout(current, i, chunk, stillFails, calls, fails, within);
      Transitive(next, current, initial);
      StaysConfirmed(stillFails, calls, more, current);
      current, i, calls := next, at, more;
    }
  }

  lemma StaysConfirmed(stillFails: Oracle, calls: nat, more: nat, result: seq<Byte>)
    requires calls <= more
    ensures Confirmed(stillFails, calls, result) ==> Confirmed(stillFails, more, result)
  {
  }

  lemma {:induction false} ChunksAtMost(len: nat, chunk: nat, bound: nat)
    requires chunk > 0 && len <= bound * chunk
    ensures Chunks(len, chunk) <= bound
    decreases bound
  {
    if len > 0 {
      assert bound * chunk == (bound - 1) * chunk + chunk;
      ChunksAtMost(Left(len, chunk), chunk, bound - 1);
    }
  }

  /** n bytes are `parts` runs of `chunk` and fewer than `parts` bytes over. */
  ghost predicate Spans(n: nat, chunk: nat, parts: nat) {
    2 <= parts && parts % 2 == 0 && parts * chunk <= n < parts * (chunk + 1)
  }

  /** The bytes over fill at most half as many runs. */
  lemma {:induction false} PassCost(n: nat, chunk: nat, parts: nat)
    requires 2 <= chunk && Spans(n, chunk, parts)
    ensures 2 * Chunks(n, chunk) <= 3 * parts
  {
    var half := parts / 2;
    calc {
      n;
    <=
      parts * chunk + half * 2;
    <= { assert half * 2 <= half * chunk; }
      parts * chunk + half * chunk;
      (parts + half) * chunk;
    }
    ChunksAtMost(n, chunk, parts + half);
  }

  lemma Halved(n: nat, chunk: nat, parts: nat)
    requires 2 <= chunk && Spans(n, chunk, parts)
    ensures Spans(n, chunk / 2, 2 * parts)
  {
    var h := chunk / 2;
    assert chunk == 2 * h || chunk == 2 * h + 1;
    assert (2 * parts) * h == parts * (2 * h);
    assert parts * (2 * h) <= parts * chunk;
    assert (2 * parts) * (h + 1) == parts * (2 * h + 2);
    assert parts * (chunk + 1) <= parts * (2 * h + 2);
  }

  method Minimize(initial: seq<Byte>, stillFails: Oracle, ghost fails: seq<Byte> -> bool)
    returns (current: seq<Byte>, calls: nat)
    ensures IsSubsequence(current, initial)
    ensures initial != [] ==> current != []
    ensures current == initial || Confirmed(stillFails, calls, current)
    ensures if |initial| < 2 then calls == 0 else 2 * calls <= 5 * |initial| - 6
    ensures Deterministic(stillFails, fails) ==> current == Minimized(fails, initial)
    ensures Deterministic(stillFails, fails) && UpwardClosed(fails, initial) ==> Minimal(fails, current)
  {
    current, calls := initial, 0;
    Reflexive(initial);
    if |current| <= 1 {
      return;
    }
    var chunk := |current| / 2;
    ghost var n: nat, parts: nat := |initial|, 2;
    while true
      invariant 1 <= chunk && Spans(n, chunk, parts)
      invariant current != [] && |current| <= n && IsSubsequence(current, initial)
      invariant 2 * calls <= 3 * parts - 6
      invariant Deterministic(stillFails, fails) ==> Passes(fails, current, chunk) == Minimized(fails, initial)
      invariant current == initial || Confirmed(stillFails, calls, current)
      decreases chunk
    {
      ghost var before := current;
      MoreBytesMoreChunks(|current|, n, chunk);
      ghost var firstCall := calls;
      current, calls := Pass(current, chunk, stillFails, calls, fails, initial);
      NoLonger(current, before);
      Transitive(current, before, initial);
      StaysConfirmed(stillFails, firstCall, calls, before);
      if chunk == 1 {
        ChunksAtMost(n, 1, n);
        assert parts <= n;
        if UpwardClosed(fails, initial) {
          ClosedBelow(fails, initial, current);
          OneMinimalIsMinimal(fails, current);
        }
        break;
      }
      PassCost(n, chunk, parts);
      Halved(n, chunk, parts);
      chunk := Max(chunk / 2, 1);
      parts := 2 * parts;
    }
  }

  lemma ClosedBelow(fails: seq<Byte> -> bool, within: seq<Byte>, current: seq<Byte>)
    requires UpwardClosed(fails, within) && IsSubsequence(current, within)
    ensures UpwardClosed(fails, current)
  {
    forall s: seq<Byte>, t: seq<Byte> | IsSubsequence(s, t) && IsSubsequence(t, current) && fails(s)
      ensures fails(t)
    {
      Transitive(t, current, within);
    }
  }

  /** 1-minimality is minimality for upward closed failures: no non-empty proper subsequence fails. */
  lemma OneMinimalIsMinimal(fails: seq<Byte> -> bool, s: seq<Byte>)
    requires UpwardClosed(fails, s)
    ensures OneMinimal(fails, s, |s|) <==> Minimal(fails, s)
  {
    if OneMinimal(fails, s, |s|) {
      forall r: seq<Byte> | r != [] && |r| < |s| && IsSubsequence(r, s)
        ensures !fails(r)
      {
        var gap := ProperMissesAPosition(r, s);
        assert Needed(fails, s, gap);
        WithoutIsSubsequence(s, gap, gap + 1);
      }
    }
    if Minimal(fails, s) {
      forall i: nat | i < |s|
        ensures Needed(fails, s, i)
      {
        WithoutIsSubsequence(s, i, i + 1);
      }
    }
  }

  predicate OnlySomeFail(s: seq<Byte>) {
    s == [1, 2, 3] || s == [1, 3] || s == [3]
  }

  /** Without upward closure the result need not be minimal: [3] alone still fails, but 1 was tried, and kept,
      while 2 was still there. */
  lemma MinimalityNeedsClosure()
    ensures OnlySomeFail([1, 2, 3]) && Minimized(OnlySomeFail, [1, 2, 3]) == [1, 3]
    ensures !UpwardClosed(OnlySomeFail, [1, 2, 3]) && !Minimal(OnlySomeFail, [1, 3])
  {
    ThreeAreMinimizedToTwo();
    OneFailsInside();
  }

  lemma ThreeAreMinimizedToTwo()
    ensures Minimized(OnlySomeFail, [1, 2, 3]) == [1, 3]
  {
    var abc: seq<Byte>, ac: seq<Byte> := [1, 2, 3], [1, 3];
    assert Without(abc, 0, 1) == [2, 3] && Without(abc, 1, 2) == ac && Without(ac, 1, 2) == [1];
    assert PassFrom(OnlySomeFail, ac, 1, 1) == PassFrom(OnlySomeFail, ac, 2, 1) == ac;
    assert PassFrom(OnlySomeFail, abc, 0, 1) == PassFrom(OnlySomeFail, abc, 1, 1) == ac;
  }

  lemma OneFailsInside()
    ensures !UpwardClosed(OnlySomeFail, [1, 2, 3]) && !Minimal(OnlySomeFail, [1, 3])
  {
    var abc: seq<Byte>, bc: seq<Byte>, ac: seq<Byte>, c: seq<Byte> := [1, 2, 3], [2, 3], [1, 3], [3];
    assert Without(abc, 0, 1) == bc && Without(bc, 0, 1) == c == Without(ac, 0, 1);
    WithoutIsSubsequence(abc, 0, 1);
    WithoutIsSubsequence(bc, 0, 1);
    WithoutIsSubsequence(ac, 0, 1);
    assert !OnlySomeFail(bc);
  }
}
