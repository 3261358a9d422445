/** Generators of 64-bit words: a step takes a state to the next state and the word drawn. */
module Generators {

  const TWO_64: int := 0x1_0000_0000_0000_0000

  type U64 = x: int | 0 <= x < TWO_64

  type Generator = U64 -> (U64, U64)

  function StateAfter(next: Generator, state: U64, n: nat): U64 {
    if n == 0 then state else next(StateAfter(next, state, n - 1)).0
  }

  /** The word drawn after n others. */
  function WordAt(next: Generator, state: U64, n: nat): U64 {
    next(StateAfter(next, state, n)).1
  }

  ghost predicate ComesUp(next: Generator, state: U64, word: U64) {
    exists n: nat :: WordAt(next, state, n) == word
  }

  ghost predicate ReachesEveryWord(next: Generator) {
    forall state: U64, word: U64 :: ComesUp(next, state, word)
  }

  lemma WaitFor(next: Generator, state: U64, word: U64) returns (wait: nat)
    requires ReachesEveryWord(next)
    ensures WordAt(next, state, wait) == word
  {
    assert ComesUp(next, state, word);
    wait :| WordAt(next, state, wait) == word;
  }

  lemma {:induction false} StepFirst(next: Generator, state: U64, n: nat)
    ensures StateAfter(next, state, n + 1) == StateAfter(next, next(state).0, n)
  {
    if n > 0 {
      StepFirst(next, state, n - 1);
    }
  }
}
