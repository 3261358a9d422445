/** The seeded generator behind the corruption modes, crates/calliope-core/src/fault.rs. A u64 is a
    natural number below 2^64; xor and right shift work bit by bit on naturals, and wrapping
    arithmetic is arithmetic modulo 2^64. */
module SplitMix {
  import opened Generators

  const GAMMA: int := 0x9E37_79B9_7F4A_7C15
  const MUL_1: int := 0xBF58_476D_1CE4_E5B9
  const MUL_2: int := 0x94D0_49BB_1331_11EB
  // GAMMA * GAMMA_INVERSE, MUL_1 * MUL_1_INVERSE and MUL_2 * MUL_2_INVERSE are 1 modulo 2^64
  const GAMMA_INVERSE: int := 0xF1DE_83E1_9937_733D
  const MUL_1_INVERSE: int := 0x96DE_1B17_3F11_9089
  const MUL_2_INVERSE: int := 0x3196_42B2_D24D_8EC3

  function Pow2(k: nat): (p: nat)
    ensures p > 0
  {
    if k == 0 then 1 else 2 * Pow2(k - 1)
  }

  function Xor(a: nat, b: nat): nat {
    if a == 0 && b == 0 then 0 else 2 * Xor(a / 2, b / 2) + (a + b) % 2
  }

  function Shr(a: nat, k: nat): nat
    decreases a, k
  {
    if k == 0 then a else Shr(a / 2, k - 1)
  }

  /** z ^ (z >> k) */
  function XorShift(z: nat, k: nat): nat {
    Xor(z, Shr(z, k))
  }

  lemma {:induction false} XorAssociates(a: nat, b: nat, c: nat)
    ensures Xor(Xor(a, b), c) == Xor(a, Xor(b, c))
  {
    var xor := (x: nat, y: nat) => Xor(x, y);
    forall x: nat, y: nat
      ensures WorksOnHalves(xor, x, y)
    {
      XorHalves(x, y);
    }
    HalvingAssociates(xor, a, b, c);
  }

  /** The parity adds up, and the halves are treated the same way. */
  ghost predicate WorksOnHalves(op: (nat, nat) -> nat, a: nat, b: nat) {
    op(a, b) / 2 == op(a / 2, b / 2) && op(a, b) % 2 == (a + b) % 2
  }

  lemma {:induction false} HalvingAssociates(op: (nat, nat) -> nat, a: nat, b: nat, c: nat)
    requires op(0, 0) == 0 && forall x: nat, y: nat :: WorksOnHalves(op, x, y)
    ensures op(op(a, b), c) == op(a, op(b, c))
    decreases a + b + c
  {
    if a + b + c > 0 {
      assert WorksOnHalves(op, a, b) && WorksOnHalves(op, b, c);
      assert WorksOnHalves(op, op(a, b), c) && WorksOnHalves(op, a, op(b, c));
      HalvingAssociates(op, a / 2, b / 2, c / 2);
      SameParity(op(a, b), op(b, c), a, b, c);
      SameHalves(op(op(a, b), c), op(a, op(b, c)));
    }
  }

  lemma SameParity(ab: nat, bc: nat, a: nat, b: nat, c: nat)
    requires ab % 2 == (a + b) % 2 && bc % 2 == (b + c) % 2
    ensures (ab + c) % 2 == (a + bc) % 2
  {
  }

  lemma {:induction false} XorHalves(a: nat, b: nat)
    ensures Xor(a, b) / 2 == Xor(a / 2, b / 2)
    ensures Xor(a, b) % 2 == (a + b) % 2
  {
  }

  lemma SameHalves(x: nat, y: nat)
    requires x / 2 == y / 2 && x % 2 == y % 2
    ensures x == y
  {
  }

  lemma {:induction false} XorZero(a: nat)
    ensures Xor(0, a) == a && Xor(a, 0) == a
  {
    if a != 0 {
      XorZero(a / 2);
    }
  }

  lemma {:induction false} XorSelf(a: nat)
    ensures Xor(a, a) == 0
  {
    if a != 0 {
      XorSelf(a / 2);
    }
  }

  lemma {:induction false} XorBound(a: nat, b: nat, k: nat)
    requires a < Pow2(k) && b < Pow2(k)
    ensures Xor(a, b) < Pow2(k)
  {
    if k > 0 {
      XorBound(a / 2, b / 2, k - 1);
    }
  }

  lemma {:induction false} ShrXor(a: nat, b: nat, k: nat)
    ensures Shr(Xor(a, b), k) == Xor(Shr(a, k), Shr(b, k))
    decreases a, k
  {
    if k > 0 {
      XorHalves(a, b);
      ShrXor(a / 2, b / 2, k - 1);
    }
  }

  lemma {:induction false} ShrShr(a: nat, j: nat, k: nat)
    ensures Shr(Shr(a, j), k) == Shr(a, j + k)
    decreases j
  {
    if j > 0 {
      ShrShr(a / 2, j - 1, k);
    }
  }

  lemma {:induction false} ShrBound(a: nat, k: nat, m: nat)
    requires a < Pow2(m)
    ensures Shr(a, k) < Pow2(m)
    ensures k >= m ==> Shr(a, k) == 0
    decreases a, k
  {
    if k > 0 {
      if m > 0 {
        ShrBound(a / 2, k - 1, m - 1);
      } else {
        ShrBound(0, k - 1, 0);
      }
    }
  }

  lemma {:induction false} Pow2OfSum(j: nat, k: nat)
    ensures Pow2(j + k) == Pow2(j) * Pow2(k)
  {
    if j > 0 {
      Pow2OfSum(j - 1, k);
    }
  }

  lemma Pow2Of64()
    ensures Pow2(64) == TWO_64
  {
    assert Pow2(4) == 16;
    Pow2OfSum(4, 4);
    Pow2OfSum(8, 8);
    Pow2OfSum(16, 16);
    Pow2OfSum(32, 32);
  }

  /** What undoes z ^ (z >> k) when three shifts by k clear a 64-bit word. */
  function UnXorShift(v: nat, k: nat): nat {
    Xor(Xor(v, Shr(v, k)), Shr(v, 2 * k))
  }

  lemma XorShiftUndone(v: U64, k: nat)
    requires 3 * k >= 64
    ensures UnXorShift(v, k) < TWO_64
    ensures XorShift(UnXorShift(v, k), k) == v
  {
    UnXorShiftIsWord(v, k);
    var v1, v2 := Shr(v, k), Shr(v, 2 * k);
    ShiftedUndone(v, k);
    XorAssociates(v, v1, v2);
    XorCancels(v, Xor(v1, v2));
  }

  lemma UnXorShiftIsWord(v: U64, k: nat)
    ensures UnXorShift(v, k) < TWO_64
  {
    Pow2Of64();
    ShrBound(v, k, 64);
    ShrBound(v, 2 * k, 64);
    XorBound(v, Shr(v, k), 64);
    XorBound(Xor(v, Shr(v, k)), Shr(v, 2 * k), 64);
  }

  lemma {:induction false} ShiftedUndone(v: U64, k: nat)
    requires 3 * k >= 64
    ensures Shr(UnXorShift(v, k), k) == Xor(Shr(v, k), Shr(v, 2 * k))
  {
    var v1, v2 := Shr(v, k), Shr(v, 2 * k);
    Pow2Of64();
    ShrBound(v, 3 * k, 64);
    ShrShr(v, k, k);
    ShrShr(v, 2 * k, k);
    ShrXor(Xor(v, v1), v2, k);
    ShrXor(v, v1, k);
    XorZero(Xor(v1, v2));
  }

  lemma {:induction false} XorCancels(a: nat, b: nat)
    ensures Xor(Xor(a, b), b) == a && Xor(b, Xor(b, a)) == a
  {
    XorAssociates(a, b, b);
    XorAssociates(b, b, a);
    XorSelf(b);
    XorZero(a);
  }

  /** Undone the other way round: nothing is shifted away for good. */
  lemma XorShiftRedone(z: U64, k: nat)
    requires 3 * k >= 64
    ensures UnXorShift(XorShift(z, k), k) == z
  {
    Pow2Of64();
    var z1, z2, z3 := Shr(z, k), Shr(z, 2 * k), Shr(z, 3 * k);
    ShrBound(z, 3 * k, 64);
    ShrShr(z, k, k);
    ShrShr(z, k, 2 * k);
    ShrXor(z, z1, k);
    ShrXor(z, z1, 2 * k);
    XorZero(z2);
    XorAssociates(z, z1, Xor(z1, z2));
    XorCancels(z2, z1);
    XorCancels(z, z2);
  }

  lemma XorShiftIsWord(z: U64, k: nat)
    ensures XorShift(z, k) < TWO_64
  {
    Pow2Of64();
    ShrBound(z, k, 64);
    XorBound(z, Shr(z, k), 64);
  }

  function WrappingMul(a: U64, b: U64): U64 {
    a * b % TWO_64
  }

  function WrappingAdd(a: U64, b: U64): U64 {
    (a + b) % TWO_64
  }

  /** The output mixer of splitmix64, applied to the advanced state. */
  function Mix(state: U64): U64 {
    XorShiftIsWord(state, 30);
    var z1 := WrappingMul(XorShift(state, 30), MUL_1);
    XorShiftIsWord(z1, 27);
    var z2 := WrappingMul(XorShift(z1, 27), MUL_2);
    XorShiftIsWord(z2, 31);
    XorShift(z2, 31)
  }

  /** The state a mixed word came from. */
  function Unmix(word: U64): U64 {
    XorShiftUndone(word, 31);
    var z1 := WrappingMul(UnXorShift(word, 31), MUL_2_INVERSE);
    XorShiftUndone(z1, 27);
    var z2 := WrappingMul(UnXorShift(z1, 27), MUL_1_INVERSE);
    XorShiftUndone(z2, 30);
    UnXorShift(z2, 30)
  }

  lemma WholeTurns(x: int, turns: int)
    ensures (x + turns * TWO_64) % TWO_64 == x % TWO_64
  {
  }

  /** Multiplying by one and then by the other gives the word back, in either order. */
  lemma OddFactorUndone(v: U64, factor: U64, inverse: U64, q: int)
    requires inverse * factor == 1 + q * TWO_64
    ensures WrappingMul(WrappingMul(v, inverse), factor) == v
    ensures WrappingMul(WrappingMul(v, factor), inverse) == v
  {
    ProductUndone(v, inverse, factor, q);
    ProductUndone(v, factor, inverse, q);
  }

  lemma ProductUndone(v: U64, a: U64, b: U64, q: int)
    requires a * b == 1 + q * TWO_64
    ensures WrappingMul(WrappingMul(v, a), b) == v
  {
    var wrapped := WrappingMul(v, a);
    var turns := ProductIsWholeTurnsAway(v, a, b, q, wrapped);
    WrapsBack(wrapped * b, v, turns);
  }

  lemma WrapsBack(product: int, v: U64, turns: int)
    requires product == v + turns * TWO_64
    ensures product % TWO_64 == v
  {
    WholeTurns(v, turns);
  }

  lemma ProductIsWholeTurnsAway(v: U64, a: U64, b: U64, q: int, wrapped: U64) returns (turns: int)
    requires a * b == 1 + q * TWO_64 && wrapped == WrappingMul(v, a)
    ensures wrapped * b == v + turns * TWO_64
  {
    var w := v * a / TWO_64;
    assert wrapped == v * a - w * TWO_64;
    MulOfDifference(v * a, w, b);
    MulOfSum(v, a, b, q);
    turns := v * q - w * b;
    TurnsOfDifference(v * q, w * b);
  }

  lemma TurnsOfDifference(x: int, y: int)
    ensures (x - y) * TWO_64 == x * TWO_64 - y * TWO_64
  {
  }

  lemma MulOfDifference(x: int, w: int, b: int)
    ensures (x - w * TWO_64) * b == x * b - (w * b) * TWO_64
  {
  }

  lemma MulOfSum(v: int, a: int, b: int, q: int)
    requires a * b == 1 + q * TWO_64
    ensures v * a * b == v + (v * q) * TWO_64
  {
    assert v * a * b == v * (a * b);
  }

  /** The mixer reaches every 64-bit word. */
  lemma MixIsOnto(word: U64)
    ensures Mix(Unmix(word)) == word
  {
    XorShiftUndone(word, 31);
    var u1 := UnXorShift(word, 31);
    var z1 := WrappingMul(u1, MUL_2_INVERSE);
    XorShiftUndone(z1, 27);
    var u2 := UnXorShift(z1, 27);
    var z2 := WrappingMul(u2, MUL_1_INVERSE);
    XorShiftUndone(z2, 30);
    FactorsUndone(u2, u1);
  }

  lemma FactorsUndone(a: U64, b: U64)
    ensures WrappingMul(WrappingMul(a, MUL_1_INVERSE), MUL_1) == a == WrappingMul(WrappingMul(a, MUL_1), MUL_1_INVERSE)
    ensures WrappingMul(WrappingMul(b, MUL_2_INVERSE), MUL_2) == b == WrappingMul(WrappingMul(b, MUL_2), MUL_2_INVERSE)
  {
    OddFactorUndone(a, MUL_1, MUL_1_INVERSE, 0x70C3_BCA7_8F27_F46C);
    OddFactorUndone(b, MUL_2, MUL_2_INVERSE, 0x1CD3_36ED_A85F_1453);
  }

  /** No two states are mixed into one word. So the mixer is a bijection. */
  lemma MixIsOneToOne(state: U64)
    ensures Unmix(Mix(state)) == state
  {
    XorShiftIsWord(state, 30);
    var x1 := XorShift(state, 30);
    var z1 := WrappingMul(x1, MUL_1);
    XorShiftIsWord(z1, 27);
    var x2 := XorShift(z1, 27);
    var z2 := WrappingMul(x2, MUL_2);
    XorShiftIsWord(z2, 31);
    XorShiftRedone(z2, 31);
    XorShiftRedone(z1, 27);
    XorShiftRedone(state, 30);
    FactorsUndone(x1, x2);
  }

  lemma MixReaches(word: U64) returns (state: U64)
    ensures Mix(state) == word
  {
    state := Unmix(word);
    MixIsOnto(word);
  }

  /** splitmix64: the advanced state and the mixed word. */
  function SplitMix64(state: U64): (U64, U64) {
    var advanced := WrappingAdd(state, GAMMA);
    (advanced, Mix(advanced))
  }

  lemma AddingWraps(x: nat)
    ensures (x % TWO_64 + GAMMA) % TWO_64 == (x + GAMMA) % TWO_64
  {
    WholeTurns(x + GAMMA, -(x / TWO_64));
  }

  lemma {:induction false} StateAdvancesByGamma(state: U64, n: nat)
    ensures StateAfter(SplitMix64, state, n) == (state + n * GAMMA) % TWO_64
  {
    forall s: U64
      ensures SplitMix64(s).0 == (s + GAMMA) % TWO_64
    {
    }
    AdvancesByGamma(SplitMix64, state, n);
  }

  lemma {:induction false} AdvancesByGamma(next: Generator, state: U64, n: nat)
    requires forall s: U64 :: next(s).0 == (s + GAMMA) % TWO_64
    ensures StateAfter(next, state, n) == (state + n * GAMMA) % TWO_64
  {
    if n > 0 {
      AdvancesByGamma(next, state, n - 1);
      var before := state + (n - 1) * GAMMA;
      AddingWraps(before);
      OneMoreGamma(state, n);
    }
  }

  lemma OneMoreGamma(state: int, n: int)
    ensures state + (n - 1) * GAMMA + GAMMA == state + n * GAMMA
  {
  }

  /** The state has full period: from any state, any state comes up within 2^64 calls. */
  lemma StateHasFullPeriod(state: U64, target: U64) returns (steps: nat)
    ensures 1 <= steps <= TWO_64
    ensures StateAfter(SplitMix64, state, steps) == target
  {
    steps := StepsBetween(state, target);
    StateAdvancesByGamma(state, steps);
  }

  lemma StepsBetween(state: U64, target: U64) returns (steps: nat)
    ensures 1 <= steps <= TWO_64
    ensures (state + steps * GAMMA) % TWO_64 == target
  {
    var distance := target - state;
    steps := distance * GAMMA_INVERSE % TWO_64;
    var w := distance * GAMMA_INVERSE / TWO_64;
    var q := 0x957B_BF35_006E_D677;
    var m := distance * q - w * GAMMA;
    calc {
      steps * GAMMA;
      (distance * GAMMA_INVERSE - w * TWO_64) * GAMMA;
      distance * (GAMMA_INVERSE * GAMMA) - (w * GAMMA) * TWO_64;
      distance * (1 + q * TWO_64) - (w * GAMMA) * TWO_64;
      distance + m * TWO_64;
    }
    WholeTurns(target, m);
    if steps == 0 {
      steps := TWO_64;
      WholeTurns(target, m + GAMMA);
    }
  }

  /** Every word is drawn again and again, whatever the state. */
  lemma EveryWordComesUp()
    ensures ReachesEveryWord(SplitMix64)
  {
    forall state: U64, word: U64
      ensures ComesUp(SplitMix64, state, word)
    {
      var target := MixReaches(word);
      var steps := StateHasFullPeriod(state, target);
      assert WordAt(SplitMix64, state, steps - 1) == word;
    }
  }
}
