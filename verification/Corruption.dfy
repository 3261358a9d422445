/** Seeded input corruption, crates/calliope-core/src/fault.rs. */
module Corruption {
  import opened Prelude
  import opened Generators
  import opened SplitMix
  import opened Subsequences

  type Byte = b: nat | b < 256

  datatype FaultKind = Truncate | BitFlip | ByteDrop | NalPayload

  datatype Fault = Fault(mode: FaultKind, seed: U64, count: nat, keepPercent: nat) {
    predicate Validate() {
      match mode
      case Truncate => 1 <= keepPercent <= 99
      case _ => count != 0
    }
  }

  /** What is refused: flips or drops of nothing, and to keep nothing or all. */
  lemma RefusedMeans(fault: Fault)
    ensures !fault.Validate()
            <==> if fault.mode.Truncate? then fault.keepPercent == 0 || fault.keepPercent > 99 else fault.count == 0
  {
  }

  // ----- truncation -----

  function KeptPrefix(len: nat, keepPercent: nat): nat {
    var keep := len * keepPercent / 100;
    if keep < 1 then 1 else keep
  }

  lemma TruncationKeepsSome(len: nat, keepPercent: nat)
    requires len > 0 && keepPercent <= 100
    ensures 1 <= KeptPrefix(len, keepPercent) <= len
    ensures len >= 2 && keepPercent <= 99 ==> KeptPrefix(len, keepPercent) < len
  {
    assert len * keepPercent <= len * 100;
    if keepPercent <= 99 {
      assert len * keepPercent <= len * 99;
    }
  }

  /** What is kept is the whole bytes of so many percent, or one byte if that is none. */
  lemma TruncationKeepsPercent(len: nat, keepPercent: nat)
    ensures var kept := KeptPrefix(len, keepPercent);
            if len * keepPercent < 100 then kept == 1
            else kept * 100 <= len * keepPercent < kept * 100 + 100
  {
  }

  // ----- bit flips -----

  function BitMask(bit: nat): Byte
    requires bit < 8
  {
    MaskIsByte(bit);
    Pow2(bit)
  }

  lemma {:induction false} MaskIsByte(bit: nat)
    requires bit < 8
    ensures Pow2(bit) < 256
  {
    assert Pow2(3) == 8 && Pow2(7) == 128;
  }

  function FlipBits(b: Byte, mask: Byte): Byte {
    XorIsByte(b, mask);
    Xor(b, mask)
  }

  lemma {:induction false} XorIsByte(a: Byte, b: Byte)
    ensures Xor(a, b) < 256
  {
    assert Pow2(4) == 16 && Pow2(8) == 256;
    XorBound(a, b, 8);
  }

  predicate AreOffsets(targets: seq<nat>, len: nat) {
    targets != [] && forall i :: 0 <= i < |targets| ==> targets[i] < len
  }

  datatype Flip = Flip(offset: nat, mask: Byte)

  /** The flips a seed asks for: each draws one of `targets`, then one of the eight bits. */
  function DrawnFlips(next: Generator, targets: seq<nat>, seed: U64, count: nat): (flips: seq<Flip>)
    requires targets != []
    ensures |flips| == count
  {
    seq(count, i requires 0 <= i < count =>
      Flip(targets[WordAt(next, seed, 2 * i) % |targets|], BitMask(WordAt(next, seed, 2 * i + 1) % 8)))
  }

  function Flipped(bytes: seq<Byte>, flips: seq<Flip>): (r: seq<Byte>)
    requires forall i :: 0 <= i < |flips| ==> flips[i].offset < |bytes|
    ensures |r| == |bytes|
  {
    if flips == [] then bytes
    else
      var flip := flips[|flips| - 1];
      var before := Flipped(bytes, flips[..|flips| - 1]);
      before[flip.offset := FlipBits(before[flip.offset], flip.mask)]
  }

  function AllOffsets(len: nat): (r: seq<nat>)
    ensures |r| == len && forall i :: 0 <= i < len ==> r[i] == i
  {
    seq(len, i => i)
  }

  /** The bits of the byte at `offset` that the flips turn over. */
  function MaskAt(flips: seq<Flip>, offset: nat): Byte {
    if flips == [] then 0
    else
      Turned(MaskAt(flips[..|flips| - 1], offset), flips[|flips| - 1], offset)
  }

  /** What a flip makes of the byte at `offset`. */
  function Turned(b: Byte, flip: Flip, offset: nat): Byte {
    if flip.offset == offset then FlipBits(b, flip.mask) else b
  }

  lemma MaskTakesTheFlip(original: Byte, flipped: Byte, masked: Byte, flip: Flip, offset: nat)
    requires flipped == FlipBits(original, masked)
    ensures Turned(flipped, flip, offset) == FlipBits(original, Turned(masked, flip, offset))
  {
    XorAssociates(original, masked, flip.mask);
  }

  lemma {:induction false} LastFlip(bytes: seq<Byte>, flips: seq<Flip>, offset: nat)
    requires flips != [] && forall i :: 0 <= i < |flips| ==> flips[i].offset < |bytes|
    requires offset < |bytes|
    ensures Flipped(bytes, flips)[offset]
            == Turned(Flipped(bytes, flips[..|flips| - 1])[offset], flips[|flips| - 1], offset)
  {
  }

  /** Flips act on each byte on its own, whatever order they come in. */
  lemma {:induction false} FlipsActBytewise(bytes: seq<Byte>, flips: seq<Flip>, offset: nat)
    requires forall i :: 0 <= i < |flips| ==> flips[i].offset < |bytes|
    requires offset < |bytes|
    ensures Flipped(bytes, flips)[offset] == FlipBits(bytes[offset], MaskAt(flips, offset))
  {
    if flips == [] {
      XorZero(bytes[offset]);
    } else {
      var front, flip := flips[..|flips| - 1], flips[|flips| - 1];
      FlipsActBytewise(bytes, front, offset);
      LastFlip(bytes, flips, offset);
      MaskTakesTheFlip(bytes[offset], Flipped(bytes, front)[offset], MaskAt(front, offset), flip, offset);
    }
  }

  lemma XorTwice(a: Byte, b: Byte)
    ensures FlipBits(FlipBits(a, b), b) == a
  {
    XorAssociates(a, b, b);
    XorSelf(b);
    XorZero(a);
  }

  /** Flipping the same bits again restores the input, even when a bit is drawn more than once. */
  lemma {:induction false} FlippingTwiceRestores(bytes: seq<Byte>, flips: seq<Flip>)
    requires forall i :: 0 <= i < |flips| ==> flips[i].offset < |bytes|
    ensures Flipped(Flipped(bytes, flips), flips) == bytes
  {
    var once := Flipped(bytes, flips);
    var twice := Flipped(once, flips);
    forall o | 0 <= o < |bytes|
      ensures twice[o] == bytes[o]
    {
      FlipsActBytewise(bytes, flips, o);
      FlipsActBytewise(once, flips, o);
      XorTwice(bytes[o], MaskAt(flips, o));
    }
  }

  ghost function Changed(before: seq<Byte>, after: seq<Byte>): set<nat>
    requires |before| == |after|
  {
    set o: nat | o < |before| && before[o] != after[o]
  }

  lemma SmallerSet<T>(a: set<T>, b: set<T>)
    requires a <= b
    ensures |a| <= |b|
  {
    assert b == a + (b - a);
  }

  /** Only flipped offsets change, and at most one byte for each flip. */
  lemma {:induction false} FlipsStayOnTargets(bytes: seq<Byte>, flips: seq<Flip>)
    requires forall i :: 0 <= i < |flips| ==> flips[i].offset < |bytes|
    ensures forall o :: o in Changed(bytes, Flipped(bytes, flips)) ==> exists i :: 0 <= i < |flips| && flips[i].offset == o
    ensures |Changed(bytes, Flipped(bytes, flips))| <= |flips|
  {
    if flips == [] {
      assert Changed(bytes, bytes) == {};
    } else {
      var front, offset := flips[..|flips| - 1], flips[|flips| - 1].offset;
      FlipsStayOnTargets(bytes, front);
      var before, after := Changed(bytes, Flipped(bytes, front)), Changed(bytes, Flipped(bytes, flips));
      assert after <= before + {offset};
      SmallerSet(after, before + {offset});
      forall o | o in after
        ensures exists i :: 0 <= i < |flips| && flips[i].offset == o
      {
        if o in before {
          var i :| 0 <= i < |front| && front[i].offset == o;
          assert flips[i].offset == o;
        }
      }
    }
  }

  // ----- Annex-B payload offsets -----

  predicate IsStartCode(data: seq<Byte>, s: int) {
    0 <= s && s + 2 < |data| && data[s] == 0 && data[s + 1] == 0 && data[s + 2] == 1
  }

  /** Inside a start code or the NAL header byte after it. */
  ghost predicate Protected(data: seq<Byte>, offset: int) {
    exists s :: IsStartCode(data, s) && s <= offset < s + 4
  }

  ghost predicate InPayload(data: seq<Byte>, offset: int) {
    && 0 <= offset < |data|
    && !Protected(data, offset)
    && exists s :: IsStartCode(data, s) && s < offset
  }

  method StartCodes(data: seq<Byte>) returns (starts: seq<nat>)
    ensures forall j, k :: 0 <= j < k < |starts| ==> starts[j] < starts[k]
    ensures forall s :: s in starts <==> IsStartCode(data, s)
  {
    starts := [];
    var i := 0;
    while i + 2 < |data|
      invariant forall k :: 0 <= k < |starts| ==> starts[k] < i
      invariant forall j, k :: 0 <= j < k < |starts| ==> starts[j] < starts[k]
      invariant forall s :: s in starts <==> IsStartCode(data, s) && s < i
    {
      if data[i] == 0 && data[i + 1] == 0 && data[i + 2] == 1 {
        starts := starts + [i];
        i := i + 3;
      } else {
        i := i + 1;
      }
    }
  }

  /** Offset ranges between start codes, as positions in `starts`. */
  ghost predicate InRange(data: seq<Byte>, starts: seq<nat>, n: nat, offset: int)
    requires n < |starts|
  {
    starts[n] + 4 <= offset < (if n + 1 < |starts| then starts[n + 1] else |data|)
  }

  lemma {:induction false} RangeOf(data: seq<Byte>, starts: seq<nat>, offset: int, upTo: nat) returns (n: nat)
    requires 0 < upTo <= |starts| && starts[0] < offset < |data|
    requires upTo == |starts| || offset < starts[upTo]
    ensures n < upTo && starts[n] <= offset < (if n + 1 < |starts| then starts[n + 1] else |data|)
  {
    if starts[upTo - 1] <= offset {
      n := upTo - 1;
    } else {
      n := RangeOf(data, starts, offset, upTo - 1);
    }
  }

  /** The ranges between start codes are exactly the payload. */
  lemma RangesArePayload(data: seq<Byte>, starts: seq<nat>, offset: int)
    requires forall j, k :: 0 <= j < k < |starts| ==> starts[j] < starts[k]
    requires forall s :: s in starts <==> IsStartCode(data, s)
    ensures (exists n :: 0 <= n < |starts| && InRange(data, starts, n, offset)) <==> InPayload(data, offset)
  {
    forall k | 0 <= k < |starts|
      ensures IsStartCode(data, starts[k])
    {
      assert starts[k] in starts;
    }
    if n: nat :| n < |starts| && InRange(data, starts, n, offset) {
      assert IsStartCode(data, starts[n]);
      if s :| IsStartCode(data, s) && s <= offset < s + 4 {
        assert s in starts;
        var m :| 0 <= m < |starts| && starts[m] == s;
        assert false;
      }
    }
    if InPayload(data, offset) {
      var s :| IsStartCode(data, s) && s < offset;
      assert s in starts;
      var n := RangeOf(data, starts, offset, |starts|);
      assert InRange(data, starts, n, offset);
    }
  }

  /** The payload offsets, each once, in order. */
  ghost predicate ListsPayload(data: seq<Byte>, offsets: seq<nat>) {
    && (forall j, k :: 0 <= j < k < |offsets| ==> offsets[j] < offsets[k])
    && (forall o :: o in offsets <==> InPayload(data, o))
  }

  method NalPayloadOffsets(data: seq<Byte>) returns (offsets: seq<nat>)
    ensures ListsPayload(data, offsets)
  {
    var starts := StartCodes(data);
    offsets := [];
    for n := 0 to |starts|
      invariant forall k :: 0 <= k < |offsets| ==> offsets[k] < (if n < |starts| then starts[n] else |data|)
      invariant forall j, k :: 0 <= j < k < |offsets| ==> offsets[j] < offsets[k]
      invariant forall o :: o in offsets <==> exists m :: 0 <= m < n && InRange(data, starts, m, o)
    {
      assert starts[n] in starts;
      var payloadBegin := starts[n] + 4;
      var payloadEnd := if n + 1 < |starts| then starts[n + 1] else |data|;
      ghost var sofar := offsets;
      if payloadBegin < payloadEnd {
        offsets := offsets + seq(payloadEnd - payloadBegin, i requires 0 <= i => payloadBegin + i);
      }
      forall o
        ensures o in offsets <==> exists m :: 0 <= m < n + 1 && InRange(data, starts, m, o)
      {
        assert o in sofar <==> exists m :: 0 <= m < n && InRange(data, starts, m, o);
        if InRange(data, starts, n, o) {
          assert offsets[|sofar| + (o - payloadBegin)] == o;
        }
      }
    }
    forall o
      ensures o in offsets <==> InPayload(data, o)
    {
      RangesArePayload(data, starts, o);
    }
  }

  // ----- byte drops -----

  /** The offset that the n-th word picks. */
  function OffsetAt(next: Generator, seed: U64, len: nat, n: nat): nat
    requires len > 0
  {
    WordAt(next, seed, n) % len
  }

  /** The distinct offsets among the first n draws. */
  ghost function Drawn(next: Generator, seed: U64, len: nat, n: nat): set<nat>
    requires len > 0
  {
    if n == 0 then {} else Drawn(next, seed, len, n - 1) + {OffsetAt(next, seed, len, n - 1)}
  }

  function Survivors(bytes: seq<Byte>, dropped: set<nat>): seq<Byte> {
    if bytes == [] then []
    else
      var last := |bytes| - 1;
      Survivors(bytes[..last], dropped) + if last in dropped then [] else [bytes[last]]
  }

  lemma {:induction false} DrawnGrows(next: Generator, seed: U64, len: nat, m: nat, n: nat)
    requires len > 0 && m <= n
    ensures Drawn(next, seed, len, m) <= Drawn(next, seed, len, n)
    decreases n
  {
    if m < n {
      DrawnGrows(next, seed, len, m, n - 1);
    }
  }

  lemma {:induction false} DrawnAreOffsets(next: Generator, seed: U64, len: nat, n: nat)
    requires len > 0
    ensures forall o :: o in Drawn(next, seed, len, n) ==> o < len
  {
    if n > 0 {
      DrawnAreOffsets(next, seed, len, n - 1);
    }
  }

  lemma SameSizeSubset<T>(a: set<T>, b: set<T>)
    requires a <= b && |a| == |b|
    ensures a == b
  {
    assert b == a + (b - a);
    assert |b - a| == 0;
  }

  /** Whenever the loop stops, the offsets it dropped are the same: the first `k` distinct draws. */
  lemma {:induction false} DropsAreDetermined(next: Generator, seed: U64, len: nat, m: nat, n: nat)
    requires len > 0 && |Drawn(next, seed, len, m)| == |Drawn(next, seed, len, n)|
    ensures Drawn(next, seed, len, m) == Drawn(next, seed, len, n)
  {
    if m <= n {
      DrawnGrows(next, seed, len, m, n);
      SameSizeSubset(Drawn(next, seed, len, m), Drawn(next, seed, len, n));
    } else {
      DrawnGrows(next, seed, len, n, m);
      SameSizeSubset(Drawn(next, seed, len, n), Drawn(next, seed, len, m));
    }
  }

  /** Dropping k offsets leaves a subsequence shorter by k. */
  lemma {:induction false} SurvivorsAreTheRest(bytes: seq<Byte>, dropped: set<nat>)
    requires forall o :: o in dropped ==> o < |bytes|
    ensures |Survivors(bytes, dropped)| == |bytes| - |dropped|
    ensures IsSubsequence(Survivors(bytes, dropped), bytes)
  {
    if bytes == [] {
      assert dropped == {};
      Reflexive(bytes);
    } else {
      var last := |bytes| - 1;
      var front := bytes[..last];
      SurvivorsIgnore(front, dropped, dropped - {last});
      SurvivorsAreTheRest(front, dropped - {last});
      assert bytes == front + [bytes[last]];
      if last in dropped {
        assert Survivors(bytes, dropped) == Survivors(front, dropped);
        ExtendRight(Survivors(front, dropped), front, [bytes[last]]);
      } else {
        assert dropped - {last} == dropped;
        ExtendBoth(Survivors(front, dropped), front, [bytes[last]]);
      }
    }
  }

  lemma {:induction false} SurvivorsIgnore(bytes: seq<Byte>, a: set<nat>, b: set<nat>)
    requires forall o :: 0 <= o < |bytes| ==> (o in a <==> o in b)
    ensures Survivors(bytes, a) == Survivors(bytes, b)
  {
    if bytes != [] {
      SurvivorsIgnore(bytes[..|bytes| - 1], a, b);
    }
  }

  lemma {:induction false} SomeOffsetLeft(dropped: set<nat>, len: nat) returns (offset: nat)
    requires |dropped| < len
    ensures offset < len && offset !in dropped
  {
    if len - 1 !in dropped {
      offset := len - 1;
    } else {
      offset := SomeOffsetLeft(dropped - {len - 1}, len - 1);
    }
  }

  lemma SmallMod(word: nat, len: nat)
    requires word < len
    ensures word % len == word
  {
  }

  lemma SizeWith<T>(s: set<T>, x: T)
    ensures |s + {x}| == if x in s then |s| else |s| + 1
    ensures x in s ==> s + {x} == s
  {
    if x in s {
      assert s + {x} == s;
    }
  }

  /** One draw of the n-th offset. `wait` draws later the word will be `target`, which is below `len`. */
  method DrawOffset(next: Generator, ghost seed: U64, ghost n: nat, len: nat, rng: U64, ghost target: nat,
                    ghost wait: nat)
    returns (advanced: U64, offset: nat)
    requires rng == StateAfter(next, seed, n)
    requires target < len && WordAt(next, rng, wait) == target
    ensures advanced == StateAfter(next, seed, n + 1)
    ensures offset < len
    ensures Drawn(next, seed, len, n + 1) == Drawn(next, seed, len, n) + {offset}
    ensures if wait == 0 then offset == target else WordAt(next, advanced, wait - 1) == target
  {
    var (state, word) := next(rng);
    advanced, offset := state, word % len;
    if wait == 0 {
      SmallMod(target, len);
    } else {
      StepFirst(next, rng, wait - 1);
    }
  }

  ghost predicate Marks(drop: seq<bool>, offsets: set<nat>) {
    forall o :: 0 <= o < |drop| ==> (drop[o] <==> o in offsets)
  }

  /** An offset below `len` that is not dropped yet comes up `wait` draws from here. */
  ghost predicate WillComeUp(next: Generator, rng: U64, offsets: set<nat>, len: nat, offset: nat, wait: nat) {
    offset < len && offset !in offsets && WordAt(next, rng, wait) == offset
  }

  lemma OneComesUp(next: Generator, rng: U64, offsets: set<nat>, len: nat) returns (offset: nat, wait: nat)
    requires ReachesEveryWord(next)
    requires |offsets| < len < TWO_64
    ensures WillComeUp(next, rng, offsets, len, offset, wait)
  {
    offset := SomeOffsetLeft(offsets, len);
    wait := WaitFor(next, rng, offset);
  }

  method MarkDropped(drop: array<bool>, ghost offsets: set<nat>, offset: nat) returns (isNew: bool)
    requires offset < drop.Length && Marks(drop[..], offsets)
    modifies drop
    ensures isNew == (offset !in offsets) && Marks(drop[..], offsets + {offset})
  {
    ghost var before := drop[..];
    isNew := !drop[offset];
    assert before[offset] <==> offset in offsets;
    drop[offset] := true;
    assert drop[..] == before[offset := true];
  }

  /** After `drawn` draws the generator stands at `rng`, the `dropped` distinct offsets so far are marked, and another
      one comes up after `wait` more. */
  ghost predicate HasDropped(next: Generator, seed: U64, len: nat, drawn: nat, rng: U64, drop: seq<bool>, dropped: nat,
                             undropped: nat, wait: nat)
    requires len > 0
  {
    var offsets := Drawn(next, seed, len, drawn);
    && rng == StateAfter(next, seed, drawn)
    && AreDropped(offsets, drop, dropped)
    && WillComeUp(next, rng, offsets, len, undropped, wait)
  }

  ghost predicate AreDropped(offsets: set<nat>, drop: seq<bool>, dropped: nat) {
    dropped == |offsets| && Marks(drop, offsets)
  }

  lemma NothingDropped(next: Generator, seed: U64, len: nat, drop: seq<bool>) returns (undropped: nat, wait: nat)
    requires ReachesEveryWord(next)
    requires 0 < len < TWO_64 && forall o :: 0 <= o < |drop| ==> !drop[o]
    ensures HasDropped(next, seed, len, 0, seed, drop, 0, undropped, wait)
  {
    undropped, wait := OneComesUp(next, seed, {}, len);
  }

  /** Draws an offset and marks it. One that was marked before brings the next undropped one nearer. (`== true` has a
      predicate proved as one fact instead of part by part.) */
  method DropOne(next: Generator, ghost seed: U64, len: nat, drop: array<bool>, ghost drawn: nat, rng: U64,
                 dropped: nat, ghost undropped: nat, ghost wait: nat)
    returns (advanced: U64, count: nat, ghost target: nat, ghost left: nat)
    requires ReachesEveryWord(next) == true
    requires dropped + 1 < len < TWO_64 && drop.Length == len
    requires HasDropped(next, seed, len, drawn, rng, drop[..], dropped, undropped, wait) == true
    modifies drop
    ensures HasDropped(next, seed, len, drawn + 1, advanced, drop[..], count, target, left)
    ensures count == dropped + 1 || (count == dropped && left < wait)
  {
    ghost var offsets := Drawn(next, seed, len, drawn);
    var offset;
    advanced, offset := DrawOffset(next, seed, drawn, len, rng, undropped, wait);
    SizeWith(offsets, offset);
    var isNew := MarkDropped(drop, offsets, offset);
    if isNew {
      count := dropped + 1;
      target, left := OneComesUp(next, advanced, offsets + {offset}, len);
    } else {
      count, target, left := dropped, undropped, wait - 1;
    }
  }

  /** Draws until `dropCount` distinct offsets came up. The loop ends for every seed because the generator
      reaches every word: `wait` counts the draws left until an offset that is still undropped. */
  method DropUntil(next: Generator, seed: U64, dropCount: nat, drop: array<bool>, ghost target: nat, ghost soon: nat)
    returns (ghost drawn: nat, ghost rng: U64, ghost undropped: nat, ghost wait: nat)
    requires ReachesEveryWord(next)
    requires dropCount < drop.Length < TWO_64
    requires HasDropped(next, seed, drop.Length, 0, seed, drop[..], 0, target, soon)
    modifies drop
    ensures HasDropped(next, seed, drop.Length, drawn, rng, drop[..], dropCount, undropped, wait) == true
  {
    var state, dropped := seed, 0;
    drawn, undropped, wait := 0, target, soon;
    while dropped < dropCount
      invariant dropped <= dropCount
      invariant HasDropped(next, seed, drop.Length, drawn, state, drop[..], dropped, undropped, wait) == true
      decreases dropCount - dropped, wait
    {
      state, dropped, undropped, wait := DropOne(next, seed, drop.Length, drop, drawn, state, dropped, undropped, wait);
      drawn := drawn + 1;
    }
    rng := state;
  }

  method ChooseDrops(next: Generator, seed: U64, dropCount: nat, len: nat) returns (drop: array<bool>, ghost drawn: nat)
    requires ReachesEveryWord(next)
    requires dropCount < len < TWO_64
    ensures drop.Length == len
    ensures AreDropped(Drawn(next, seed, len, drawn), drop[..], dropCount)
  {
    drop := new bool[len](_ => false);
    ghost var rng;
    ghost var undropped, wait := NothingDropped(next, seed, len, drop[..]);
    drawn, rng, undropped, wait := DropUntil(next, seed, dropCount, drop, undropped, wait);
  }

  method DropBytes(next: Generator, seed: U64, count: nat, input: seq<Byte>) returns (out: seq<Byte>)
    requires ReachesEveryWord(next)
    requires 0 < |input| < TWO_64
    ensures DropsTo(next, seed, Min(count, |input| - 1), input, out)
  {
    var dropCount := Min(count, |input| - 1);
    var drop, drawn := ChooseDrops(next, seed, dropCount, |input|);
    ghost var offsets := Drawn(next, seed, |input|, drawn);
    out := [];
    for i := 0 to |input|
      invariant out == Survivors(input[..i], offsets)
    {
      assert input[..i + 1][..i] == input[..i];
      assert drop[..][i] <==> i in offsets;
      if !drop[i] {
        out := out + [input[i]];
      }
    }
    assert input[..|input|] == input;
  }

  /** `out` is `input` without its first `dropCount` distinct drawn offsets. */
  ghost predicate DropsTo(next: Generator, seed: U64, dropCount: nat, input: seq<Byte>, out: seq<Byte>)
    requires input != []
  {
    exists n: nat :: |Drawn(next, seed, |input|, n)| == dropCount && out == Survivors(input, Drawn(next, seed, |input|, n))
  }

  /** The output of a byte drop is one sequence for each seed: the input less `dropCount` bytes. */
  lemma DropsLeaveTheRest(next: Generator, seed: U64, dropCount: nat, input: seq<Byte>, out: seq<Byte>,
                          other: seq<Byte>)
    requires input != [] && DropsTo(next, seed, dropCount, input, out)
    ensures |out| == |input| - dropCount
    ensures IsSubsequence(out, input)
    ensures DropsTo(next, seed, dropCount, input, other) ==> other == out
  {
    var n: nat :| |Drawn(next, seed, |input|, n)| == dropCount && out == Survivors(input, Drawn(next, seed, |input|, n));
    DrawnAreOffsets(next, seed, |input|, n);
    SurvivorsAreTheRest(input, Drawn(next, seed, |input|, n));
    if DropsTo(next, seed, dropCount, input, other) {
      var m: nat :| |Drawn(next, seed, |input|, m)| == dropCount && other == Survivors(input, Drawn(next, seed, |input|, m));
      DropsAreDetermined(next, seed, |input|, m, n);
    }
  }

  // ----- all four modes -----

  method DrawFlip(next: Generator, targets: seq<nat>, ghost seed: U64, ghost n: nat, ghost flips: seq<Flip>, rng: U64)
    returns (advanced: U64, flip: Flip)
    requires targets != [] && n < |flips| && flips == DrawnFlips(next, targets, seed, |flips|)
    requires rng == StateAfter(next, seed, 2 * n)
    ensures advanced == StateAfter(next, seed, 2 * (n + 1))
    ensures flip == flips[n] && flip.offset in targets
  {
    var (middle, place) := next(rng);
    var (state, bits) := next(middle);
    advanced, flip := state, Flip(targets[place % |targets|], BitMask(bits % 8));
  }

  lemma {:induction false} FlippedOneMore(bytes: seq<Byte>, flips: seq<Flip>, n: nat)
    requires n < |flips| && forall i :: 0 <= i < |flips| ==> flips[i].offset < |bytes|
    ensures var before := Flipped(bytes, flips[..n]);
            Flipped(bytes, flips[..n + 1]) == before[flips[n].offset := FlipBits(before[flips[n].offset], flips[n].mask)]
  {
    assert flips[..n + 1][..n] == flips[..n];
  }

  /** Flips `count` bits at `targets` drawn from the seed, in place. */
  method FlipInPlace(next: Generator, out: array<Byte>, targets: seq<nat>, seed: U64, count: nat)
    requires AreOffsets(targets, out.Length)
    modifies out
    ensures out[..] == Flipped(old(out[..]), DrawnFlips(next, targets, seed, count))
  {
    var rng := seed;
    ghost var input, flips := out[..], DrawnFlips(next, targets, seed, count);
    for n := 0 to count
      invariant rng == StateAfter(next, seed, 2 * n)
      invariant out[..] == Flipped(input, flips[..n])
    {
      var flip;
      rng, flip := DrawFlip(next, targets, seed, n, flips, rng);
      FlippedOneMore(input, flips, n);
      out[flip.offset] := FlipBits(out[flip.offset], flip.mask);
    }
    assert flips[..count] == flips;
  }

  /** What each mode makes of a non-empty input. */
  ghost predicate CorruptsTo(fault: Fault, input: seq<Byte>, out: seq<Byte>)
    requires input != [] && (fault.mode.Truncate? ==> fault.keepPercent <= 100)
  {
    match fault.mode
    case Truncate =>
      TruncationKeepsSome(|input|, fault.keepPercent);
      out == input[..KeptPrefix(|input|, fault.keepPercent)]
    case BitFlip => out == Flipped(input, DrawnFlips(SplitMix64, AllOffsets(|input|), fault.seed, fault.count))
    case ByteDrop => DropsTo(SplitMix64, fault.seed, Min(fault.count, |input| - 1), input, out)
    case NalPayload =>
      exists payload: seq<nat> ::
        && ListsPayload(input, payload)
        && (payload == [] ==> out == input)
        && (payload != [] ==>
              && AreOffsets(payload, |input|)
              && out == Flipped(input, DrawnFlips(SplitMix64, payload, fault.seed, fault.count)))
  }

  method Corrupt(fault: Fault, input: seq<Byte>) returns (out: seq<Byte>)
    requires |input| < TWO_64
    requires fault.mode.Truncate? ==> fault.keepPercent <= 100
    ensures if input == [] then out == [] else CorruptsTo(fault, input, out)
  {
    if input == [] {
      return [];
    }
    match fault.mode
    case Truncate =>
      TruncationKeepsSome(|input|, fault.keepPercent);
      out := input[..KeptPrefix(|input|, fault.keepPercent)];
    case BitFlip =>
      var bytes := new Byte[|input|](i requires 0 <= i < |input| => input[i]);
      assert bytes[..] == input;
      FlipInPlace(SplitMix64, bytes, AllOffsets(|input|), fault.seed, fault.count);
      out := bytes[..];
    case ByteDrop =>
      EveryWordComesUp();
      out := DropBytes(SplitMix64, fault.seed, fault.count, input);
    case NalPayload =>
      var bytes := new Byte[|input|](i requires 0 <= i < |input| => input[i]);
      assert bytes[..] == input;
      var payload := NalPayloadOffsets(input);
      if payload == [] {
        return input;
      }
      PayloadIsInside(input, payload);
      FlipInPlace(SplitMix64, bytes, payload, fault.seed, fault.count);
      out := bytes[..];
  }

  lemma PayloadIsInside(data: seq<Byte>, payload: seq<nat>)
    requires ListsPayload(data, payload) && payload != []
    ensures AreOffsets(payload, |data|)
    ensures forall i :: 0 <= i < |payload| ==> InPayload(data, payload[i])
  {
    forall i | 0 <= i < |payload|
      ensures InPayload(data, payload[i])
    {
      assert payload[i] in payload;
    }
  }

  /** A fault that passes validation cuts something off or out of an input of two bytes or more, and leaves something. */
  lemma ValidFaultsShorten(fault: Fault, input: seq<Byte>, out: seq<Byte>)
    requires fault.Validate() && |input| >= 2 && CorruptsTo(fault, input, out)
    requires fault.mode.Truncate? || fault.mode.ByteDrop?
    ensures 1 <= |out| < |input|
  {
    if fault.mode.Truncate? {
      TruncationKeepsSome(|input|, fault.keepPercent);
    } else {
      DropsLeaveTheRest(SplitMix64, fault.seed, Min(fault.count, |input| - 1), input, out, out);
    }
  }

  /** Flips aimed at the payload leave every start code and NAL header byte as it was, and so does every byte
      of a stream without start codes. */
  lemma NalFlipsSpareHeaders(fault: Fault, input: seq<Byte>, out: seq<Byte>)
    requires input != [] && fault.mode.NalPayload? && CorruptsTo(fault, input, out)
    ensures |out| == |input|
    ensures forall o :: 0 <= o < |input| && !InPayload(input, o) ==> out[o] == input[o]
    ensures |Changed(input, out)| <= fault.count
  {
    var payload: seq<nat> :|
      && ListsPayload(input, payload)
      && (payload == [] ==> out == input)
      && (payload != [] ==>
            && AreOffsets(payload, |input|)
            && out == Flipped(input, DrawnFlips(SplitMix64, payload, fault.seed, fault.count)));
    if payload == [] {
      assert Changed(input, out) == {};
    } else {
      FlipsSpareHeaders(fault, input, payload, out);
    }
  }

  lemma {:induction false} FlipsSpareHeaders(fault: Fault, input: seq<Byte>, payload: seq<nat>, out: seq<Byte>)
    requires payload != [] && ListsPayload(input, payload) && AreOffsets(payload, |input|)
    requires out == Flipped(input, DrawnFlips(SplitMix64, payload, fault.seed, fault.count))
    ensures |out| == |input|
    ensures forall o :: 0 <= o < |input| && !InPayload(input, o) ==> out[o] == input[o]
    ensures |Changed(input, out)| <= fault.count
  {
    var flips := DrawnFlips(SplitMix64, payload, fault.seed, fault.count);
    PayloadIsInside(input, payload);
    FlipsStayOnTargets(input, flips);
    forall o | 0 <= o < |input| && !InPayload(input, o)
      ensures out[o] == input[o]
    {
      assert o !in Changed(input, out);
    }
  }
}
