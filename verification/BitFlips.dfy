/** Which bits the flip modes of crates/calliope-core/src/fault.rs change. */
module BitFlips {
  import opened Prelude
  import opened Generators
  import opened SplitMix
  import opened Corruption

  // ----- one bit -----

  function Bit(n: nat, j: nat): (bit: nat)
    ensures bit < 2
  {
    if j == 0 then n % 2 else Bit(n / 2, j - 1)
  }

  /** Bit j is worth two to the power of j. */
  lemma {:induction false} BitMeans(n: nat, j: nat)
    ensures Bit(n, j) == n / Pow2(j) % 2
  {
    if j > 0 {
      BitMeans(n / 2, j - 1);
      HalfFirst(n, Pow2(j - 1));
    }
  }

  lemma HalfFirst(n: nat, d: nat)
    requires d > 0
    ensures n / 2 / d == n / (2 * d)
  {
    var q := n / (2 * d);
    QuotientIs(n, 2 * d, q);
    assert q * d * 2 == q * (2 * d);
    QuotientIs(n / 2, d, q);
  }

  lemma {:induction false} BitOfXor(a: nat, b: nat, j: nat)
    ensures Bit(Xor(a, b), j) == (Bit(a, j) + Bit(b, j)) % 2
  {
    var xor := (x: nat, y: nat) => Xor(x, y);
    forall x: nat, y: nat
      ensures WorksOnHalves(xor, x, y)
    {
      XorHalves(x, y);
    }
    BitOfBoth(xor, a, b, j);
  }

  lemma {:induction false} BitOfBoth(xor: (nat, nat) -> nat, a: nat, b: nat, j: nat)
    requires forall x: nat, y: nat :: WorksOnHalves(xor, x, y)
    ensures Bit(xor(a, b), j) == (Bit(a, j) + Bit(b, j)) % 2
  {
    assert WorksOnHalves(xor, a, b);
    if j > 0 {
      BitOfBoth(xor, a / 2, b / 2, j - 1);
    }
  }

  lemma {:induction false} BitOfPower(k: nat, j: nat)
    ensures Bit(Pow2(k), j) == if j == k then 1 else 0
  {
    if j > 0 && k > 0 {
      BitOfPower(k - 1, j - 1);
    } else if j > 0 {
      NoBit(j - 1);
    }
  }

  lemma {:induction false} NoBit(j: nat)
    ensures Bit(0, j) == 0
  {
    if j > 0 {
      NoBit(j - 1);
    }
  }

  /** A mask turns over its own bit and no other. */
  lemma {:induction false} MaskTurnsOneBit(b: Byte, k: nat, j: nat)
    requires k < 8
    ensures Bit(FlipBits(b, BitMask(k)), j) == if j == k then 1 - Bit(b, j) else Bit(b, j)
  {
    BitOfXor(b, Pow2(k), j);
    BitOfPower(k, j);
  }

  // ----- the bits that differ -----

  ghost predicate Differs(before: seq<Byte>, after: seq<Byte>, o: nat, j: nat) {
    o < |before| && o < |after| && j < 8 && Bit(before[o], j) != Bit(after[o], j)
  }

  /** Bits by byte and place. */
  type Bits = set<(nat, nat)>

  /** Those in which two inputs of one length differ. */
  ghost function DifferingBits(before: seq<Byte>, after: seq<Byte>): Bits {
    set o: nat, j: nat | o < |before| && j < 8 && Differs(before, after, o, j) :: (o, j)
  }

  predicate IsBitFlip(flip: Flip) {
    exists k :: 0 <= k < 8 && flip.mask == BitMask(k)
  }

  lemma FlipTurnsOneBit(input: seq<Byte>, before: seq<Byte>, offset: nat, k: nat)
    requires |before| == |input| && offset < |input| && k < 8
    ensures var after := before[offset := FlipBits(before[offset], BitMask(k))];
            var bits := DifferingBits(input, before);
            DifferingBits(input, after) == if (offset, k) in bits then bits - {(offset, k)} else bits + {(offset, k)}
  {
    var after := before[offset := FlipBits(before[offset], BitMask(k))];
    var bits, turned := DifferingBits(input, before), DifferingBits(input, after);
    forall o: nat, j: nat
      ensures (o, j) in turned <==> if (o, j) == (offset, k) then (o, j) !in bits else (o, j) in bits
    {
      if o == offset {
        MaskTurnsOneBit(before[offset], k, j);
      }
    }
  }

  lemma SizeOfTurned(bits: Bits, x: (nat, nat))
    ensures var turned := if x in bits then bits - {x} else bits + {x};
            |turned| == if x in bits then |bits| - 1 else |bits| + 1
  {
  }

  /** One bit of the rest differs, or no longer does. */
  ghost predicate TurnsOne(bits: Bits, turned: Bits) {
    exists x :: turned == if x in bits then bits - {x} else bits + {x}
  }

  lemma {:induction false} LastTurnsOne(input: seq<Byte>, flips: seq<Flip>)
    requires flips != [] && forall i :: 0 <= i < |flips| ==> flips[i].offset < |input| && IsBitFlip(flips[i])
    ensures TurnsOne(DifferingBits(input, Flipped(input, flips[..|flips| - 1])),
                     DifferingBits(input, Flipped(input, flips)))
  {
    var flip, before := flips[|flips| - 1], Flipped(input, flips[..|flips| - 1]);
    var k :| 0 <= k < 8 && flip.mask == BitMask(k);
    FlipTurnsOneBit(input, before, flip.offset, k);
  }

  /** Flips change at most as many bits as there are flips, and an odd number of them if those are. */
  lemma {:induction false} FlipsTurnBits(input: seq<Byte>, flips: seq<Flip>)
    requires forall i :: 0 <= i < |flips| ==> flips[i].offset < |input| && IsBitFlip(flips[i])
    ensures CountsAs(|DifferingBits(input, Flipped(input, flips))|, |flips|)
  {
    if flips == [] {
      NothingDiffers(input);
    } else {
      FlipsTurnBits(input, flips[..|flips| - 1]);
      LastTurnsOne(input, flips);
      TurnedCountsAs(DifferingBits(input, Flipped(input, flips[..|flips| - 1])),
                     DifferingBits(input, Flipped(input, flips)), |flips| - 1);
    }
  }

  /** At most so many, and odd if that is. */
  predicate CountsAs(bits: nat, count: nat) {
    bits <= count && bits % 2 == count % 2
  }

  lemma TurnedCountsAs(bits: Bits, turned: Bits, count: nat)
    requires TurnsOne(bits, turned) && CountsAs(|bits|, count)
    ensures CountsAs(|turned|, count + 1)
  {
    var x :| turned == if x in bits then bits - {x} else bits + {x};
    SizeOfTurned(bits, x);
  }

  lemma {:induction false} TurnedAreFlipped(input: seq<Byte>, flips: seq<Flip>, o: nat, j: nat)
    requires forall i :: 0 <= i < |flips| ==> flips[i].offset < |input|
    requires (o, j) in DifferingBits(input, Flipped(input, flips))
    ensures exists i :: 0 <= i < |flips| && flips[i].offset == o
  {
    FlipsStayOnTargets(input, flips);
    assert o in Changed(input, Flipped(input, flips));
  }

  lemma DrawnAreBitFlips(next: Generator, targets: seq<nat>, seed: U64, count: nat)
    requires targets != []
    ensures var flips := DrawnFlips(next, targets, seed, count);
            forall i :: 0 <= i < count ==> IsBitFlip(flips[i]) && flips[i].offset in targets
  {
    var flips := DrawnFlips(next, targets, seed, count);
    forall i | 0 <= i < count
      ensures IsBitFlip(flips[i]) && flips[i].offset in targets
    {
      assert flips[i].mask == BitMask(WordAt(next, seed, 2 * i + 1) % 8);
    }
  }

  // ----- the flip modes -----

  /** Payload are the bytes after the first start code that are in no start code, two zeros and a one, and do not come
      right after one. */
  lemma PayloadMeans(data: seq<Byte>, o: nat)
    ensures InPayload(data, o)
            <==>
            && o < |data|
            && (exists s: nat :: SpellsStartCode(data, s) && s < o)
            && (forall s: nat :: SpellsStartCode(data, s) ==> o < s || s + 3 < o)
  {
    forall s: nat
      ensures IsStartCode(data, s) <==> SpellsStartCode(data, s)
    {
      if s + 2 < |data| {
        assert data[s..s + 3] == [data[s], data[s + 1], data[s + 2]];
      }
    }
  }

  predicate SpellsStartCode(data: seq<Byte>, s: nat) {
    s + 3 <= |data| && data[s..s + 3] == [0, 0, 1]
  }

  /** Where a flip mode may change bits. */
  ghost predicate IsTarget(fault: Fault, input: seq<Byte>, o: nat) {
    o < |input| && (fault.mode.BitFlip? || (fault.mode.NalPayload? && InPayload(input, o)))
  }

  /** Bits of targets only, at most `count` of them, and an odd number if that is odd: so one flip changes exactly one
      bit, and an odd count never leaves an input with a target as it was. Without a target nothing changes. */
  ghost predicate ChangesBits(fault: Fault, input: seq<Byte>, out: seq<Byte>) {
    var bits := DifferingBits(input, out);
    && |out| == |input|
    && (forall o, j :: (o, j) in bits ==> IsTarget(fault, input, o))
    && (if exists o: nat :: IsTarget(fault, input, o) then
          && CountsAs(|bits|, fault.count)
          && (fault.count == 1 ==> |bits| == 1)
          && (fault.count % 2 == 1 ==> out != input)
        else out == input)
  }

  /** So a flip mode changes its input. */
  lemma FlipModesChangeBits(fault: Fault, input: seq<Byte>, out: seq<Byte>)
    requires input != [] && (fault.mode.BitFlip? || fault.mode.NalPayload?) && CorruptsTo(fault, input, out)
    ensures ChangesBits(fault, input, out)
  {
    if fault.mode.BitFlip? {
      DrawnFlipsChangeBits(fault, input, AllOffsets(|input|), out);
    } else {
      PayloadFlipsChangeBits(fault, input, out);
    }
  }

  lemma PayloadFlipsChangeBits(fault: Fault, input: seq<Byte>, out: seq<Byte>)
    requires input != [] && fault.mode.NalPayload? && CorruptsTo(fault, input, out)
    ensures ChangesBits(fault, input, out)
  {
    var payload: seq<nat> :|
      && ListsPayload(input, payload)
      && (payload == [] ==> out == input)
      && (payload != [] ==>
            && AreOffsets(payload, |input|)
            && out == Flipped(input, DrawnFlips(SplitMix64, payload, fault.seed, fault.count)));
    if payload == [] {
      NothingDiffers(input);
    } else {
      PayloadIsInside(input, payload);
      DrawnFlipsChangeBits(fault, input, payload, out);
    }
  }

  lemma NothingDiffers(input: seq<Byte>)
    ensures DifferingBits(input, input) == {}
  {
  }

  lemma {:induction false} DrawnFlipsChangeBits(fault: Fault, input: seq<Byte>, targets: seq<nat>, out: seq<Byte>)
    requires AreOffsets(targets, |input|) && forall i :: 0 <= i < |targets| ==> IsTarget(fault, input, targets[i])
    requires out == Flipped(input, DrawnFlips(SplitMix64, targets, fault.seed, fault.count))
    ensures ChangesBits(fault, input, out)
  {
    DrawnAreBitFlips(SplitMix64, targets, fault.seed, fault.count);
    FlipsChangeBits(fault, input, targets, DrawnFlips(SplitMix64, targets, fault.seed, fault.count), out);
  }

  lemma {:induction false} FlipsChangeBits(fault: Fault, input: seq<Byte>, targets: seq<nat>, flips: seq<Flip>,
                                           out: seq<Byte>)
    requires AreOffsets(targets, |input|) && forall i :: 0 <= i < |targets| ==> IsTarget(fault, input, targets[i])
    requires |flips| == fault.count
    requires forall i :: 0 <= i < |flips| ==> IsBitFlip(flips[i]) && flips[i].offset in targets
    requires out == Flipped(input, flips)
    ensures ChangesBits(fault, input, out)
  {
    FlipsTurnBits(input, flips);
    assert IsTarget(fault, input, targets[0]);
    forall o, j | (o, j) in DifferingBits(input, out)
      ensures IsTarget(fault, input, o)
    {
      TurnedAreFlipped(input, flips, o, j);
      var i :| 0 <= i < |flips| && flips[i].offset == o;
      var t :| 0 <= t < |targets| && targets[t] == o;
    }
    if fault.count % 2 == 1 {
      OddDiffers(input, out, fault.count);
    }
  }

  lemma OddDiffers(input: seq<Byte>, out: seq<Byte>, count: nat)
    requires CountsAs(|DifferingBits(input, out)|, count) && count % 2 == 1
    ensures out != input
  {
    NothingDiffers(input);
  }

  // ----- every target and every bit can be drawn -----

  lemma SeedOf(next: Generator, word: U64) returns (seed: U64)
    requires ReachesEveryWord(next)
    ensures WordAt(next, seed, 0) == word
  {
    var wait := WaitFor(next, 0, word);
    seed := StateAfter(next, 0, wait);
    assert StateAfter(next, seed, 0) == seed;
  }

  lemma SeedOfSecond(next: Generator, word: U64) returns (seed: U64)
    requires ReachesEveryWord(next)
    ensures WordAt(next, seed, 1) == word
  {
    var wait := WaitFor(next, next(0).0, word);
    StepFirst(next, 0, wait);
    seed := StateAfter(next, 0, wait);
    assert StateAfter(next, seed, 0) == seed;
    assert StateAfter(next, seed, 1) == next(seed).0 == StateAfter(next, 0, wait + 1);
  }

  lemma {:induction false} StateResumes(next: Generator, seed: U64, m: nat, n: nat)
    ensures StateAfter(next, seed, m + n) == StateAfter(next, StateAfter(next, seed, m), n)
  {
    if n > 0 {
      StateResumes(next, seed, m, n - 1);
    }
  }

  lemma SameWordsSameFlip(next: Generator, targets: seq<nat>, seed: U64, count: nat, i: nat, moved: U64, n: nat, j: nat)
    requires targets != [] && i < count && j < n
    requires AreSameWords(next, seed, i, moved, j)
    ensures DrawnFlips(next, targets, seed, count)[i] == DrawnFlips(next, targets, moved, n)[j]
  {
  }

  ghost predicate AreSameWords(next: Generator, seed: U64, i: nat, moved: U64, j: nat) {
    && WordAt(next, seed, 2 * i) == WordAt(next, moved, 2 * j)
    && WordAt(next, seed, 2 * i + 1) == WordAt(next, moved, 2 * j + 1)
  }

  lemma {:induction false} WordsResume(next: Generator, seed: U64, m: nat, i: nat, k: nat)
    requires k == m + i
    ensures AreSameWords(next, seed, k, StateAfter(next, seed, 2 * m), i) == true
  {
    WordResumes(next, seed, 2 * m, 2 * k, 2 * i);
    WordResumes(next, seed, 2 * m, 2 * k + 1, 2 * i + 1);
  }

  lemma {:induction false} WordResumes(next: Generator, seed: U64, m: nat, n: nat, k: nat)
    requires n == m + k
    ensures WordAt(next, seed, n) == WordAt(next, StateAfter(next, seed, m), k)
  {
    StateResumes(next, seed, m, k);
  }

  lemma {:induction false} FlipResumes(next: Generator, targets: seq<nat>, seed: U64, m: nat, n: nat, moved: U64,
                                       i: nat, k: nat)
    requires targets != [] && i < n && k == m + i && moved == StateAfter(next, seed, 2 * m)
    ensures DrawnFlips(next, targets, seed, m + n)[k] == DrawnFlips(next, targets, moved, n)[i]
  {
    WordsResume(next, seed, m, i, k);
    SameWordsSameFlip(next, targets, seed, m + n, k, moved, n, i);
  }

  lemma IsConcatenation<T>(all: seq<T>, first: seq<T>, more: seq<T>)
    requires |all| == |first| + |more|
    requires forall i :: 0 <= i < |first| ==> all[i] == first[i]
    requires forall i :: 0 <= i < |more| ==> all[|first| + i] == more[i]
    ensures all == first + more
  {
    forall i | 0 <= i < |all|
      ensures all[i] == (first + more)[i]
    {
      if i >= |first| {
        assert all[|first| + (i - |first|)] == more[i - |first|];
      }
    }
  }

  /** Each flip draws two words of its own: the flips after the first m are those of the state that these left. */
  lemma FlipsResume(next: Generator, targets: seq<nat>, seed: U64, m: nat, n: nat)
    requires targets != []
    ensures DrawnFlips(next, targets, seed, m + n)
            == DrawnFlips(next, targets, seed, m) + DrawnFlips(next, targets, StateAfter(next, seed, 2 * m), n)
  {
    var moved := StateAfter(next, seed, 2 * m);
    var all, more := DrawnFlips(next, targets, seed, m + n), DrawnFlips(next, targets, moved, n);
    forall i | 0 <= i < n
      ensures all[m + i] == more[i]
    {
      FlipResumes(next, targets, seed, m, n, moved, i, m + i);
    }
    IsConcatenation(all, DrawnFlips(next, targets, seed, m), more);
  }

  lemma {:induction false} FlippedInTurn(bytes: seq<Byte>, first: seq<Flip>, more: seq<Flip>)
    requires forall i :: 0 <= i < |first| ==> first[i].offset < |bytes|
    requires forall i :: 0 <= i < |more| ==> more[i].offset < |bytes|
    ensures Flipped(bytes, first + more) == Flipped(Flipped(bytes, first), more)
  {
    if more == [] {
      assert first + more == first;
    } else {
      FlippedInTurn(bytes, first, more[..|more| - 1]);
      assert (first + more)[..|first + more| - 1] == first + more[..|more| - 1];
    }
  }

  ghost predicate AreInside(flips: seq<Flip>, len: nat) {
    forall i :: 0 <= i < |flips| ==> flips[i].offset < len
  }

  ghost function InsideFlips(targets: seq<nat>, seed: U64, count: nat, len: nat): (flips: seq<Flip>)
    requires AreOffsets(targets, len)
    ensures AreInside(flips, len) == true
  {
    DrawnFlips(SplitMix64, targets, seed, count)
  }

  lemma {:induction false} FlippedAtOnce(bytes: seq<Byte>, first: seq<Flip>, between: seq<Byte>, more: seq<Flip>,
                                         out: seq<Byte>, all: seq<Flip>)
    requires all == first + more && AreInside(all, |bytes|) && AreInside(first, |bytes|) && AreInside(more, |bytes|)
    requires between == Flipped(bytes, first) && out == Flipped(between, more)
    ensures out == Flipped(bytes, all)
  {
    FlippedInTurn(bytes, first, more);
  }

  /** The bits of all bytes that a seed draws are flipped. */
  ghost predicate IsFlipped(input: seq<Byte>, seed: U64, count: nat, out: seq<Byte>)
    requires input != []
  {
    out == Flipped(input, DrawnFlips(SplitMix64, AllOffsets(|input|), seed, count))
  }

  lemma {:induction false} FlipInTurn(input: seq<Byte>, seed: U64, m: nat, between: seq<Byte>, n: nat, moved: U64,
                                      out: seq<Byte>, all: nat)
    requires moved == StateAfter(SplitMix64, seed, 2 * m) && all == m + n
    requires input != [] && IsFlipped(input, seed, m, between) && IsFlipped(between, moved, n, out)
    ensures IsFlipped(input, seed, all, out) == true
  {
    TargetsInTurn(input, AllOffsets(|input|), seed, m, between, n, moved, out, all);
  }

  lemma {:induction false} TargetsInTurn(input: seq<Byte>, targets: seq<nat>, seed: U64, m: nat, between: seq<Byte>,
                                         n: nat, moved: U64, out: seq<Byte>, all: nat)
    requires AreOffsets(targets, |input|) && moved == StateAfter(SplitMix64, seed, 2 * m) && all == m + n
    requires between == Flipped(input, DrawnFlips(SplitMix64, targets, seed, m))
    requires out == Flipped(between, DrawnFlips(SplitMix64, targets, moved, n))
    ensures out == Flipped(input, DrawnFlips(SplitMix64, targets, seed, all))
  {
    FlippedAtOnce(input, InsideFlips(targets, seed, m, |input|), between, InsideFlips(targets, moved, n, |input|),
                  out, InsideFlips(targets, seed, all, |input|)) by {
      FlipsResume(SplitMix64, targets, seed, m, n);
    }
  }

  lemma FlipsBits(fault: Fault, input: seq<Byte>, out: seq<Byte>)
    requires fault.mode.BitFlip? && input != [] && CorruptsTo(fault, input, out)
    ensures IsFlipped(input, fault.seed, fault.count, out) == true
  {
  }

  lemma ByFlips(fault: Fault, input: seq<Byte>, out: seq<Byte>)
    requires fault.mode.BitFlip? && input != [] && IsFlipped(input, fault.seed, fault.count, out)
    ensures CorruptsTo(fault, input, out) == true
  {
  }

  /** So flipping bits twice, the second time with the state that the first left, is flipping all of them at once. */
  lemma {:induction false} CorruptInTurn(first: Fault, second: Fault, whole: Fault, input: seq<Byte>,
                                         between: seq<Byte>, out: seq<Byte>)
    requires first.mode.BitFlip? && second.mode.BitFlip? && whole.mode.BitFlip?
    requires whole.seed == first.seed && whole.count == first.count + second.count
    requires second.seed == StateAfter(SplitMix64, first.seed, 2 * first.count)
    requires input != [] && CorruptsTo(first, input, between)
    requires between != [] && CorruptsTo(second, between, out)
    ensures CorruptsTo(whole, input, out) == true
  {
    FlipsBits(first, input, between);
    FlipsBits(second, between, out);
    FlipInTurn(input, first.seed, first.count, between, second.count, second.seed, out, whole.count);
    ByFlips(whole, input, out);
  }

  /** For each target some seed hits it first. */
  lemma EveryTargetIsHit(targets: seq<nat>, t: nat) returns (seed: U64)
    requires t < |targets| <= TWO_64
    ensures DrawnFlips(SplitMix64, targets, seed, 1)[0].offset == targets[t]
  {
    EveryWordComesUp();
    seed := SeedOf(SplitMix64, t);
    SmallMod(t, |targets|);
  }

  /** And for each bit some seed turns it first. */
  lemma EveryBitIsTurned(targets: seq<nat>, k: nat) returns (seed: U64)
    requires targets != [] && k < 8
    ensures DrawnFlips(SplitMix64, targets, seed, 1)[0].mask == BitMask(k)
  {
    EveryWordComesUp();
    seed := SeedOfSecond(SplitMix64, k);
    SmallMod(k, 8);
  }

  /** For each offset some seed drops it first. */
  lemma EveryOffsetIsDropped(len: nat, offset: nat) returns (seed: U64)
    requires offset < len <= TWO_64
    ensures Drawn(SplitMix64, seed, len, 1) == {offset}
  {
    EveryWordComesUp();
    seed := SeedOf(SplitMix64, offset);
    SmallMod(offset, len);
    assert Drawn(SplitMix64, seed, len, 0) == {};
  }
}
