/** Small definitions that several modules share. */
module Prelude {

  datatype Option<+T> = None | Some(value: T)

  predicate IsDigit(c: char) {
    '0' <= c <= '9'
  }

  predicate AllDigits(s: string) {
    forall i :: 0 <= i < |s| ==> IsDigit(s[i])
  }

  function Min(a: int, b: int): int {
    if a <= b then a else b
  }

  function Max(a: int, b: int): int {
    if a <= b then b else a
  }

  lemma {:induction false} WholeTurnsVanish(x: int, turns: nat, n: int)
    requires n > 0
    ensures (x + turns * n) % n == x % n
  {
    if turns > 0 {
      OneTurnVanishes(x + (turns - 1) * n, n);
      assert x + (turns - 1) * n + n == x + turns * n;
      WholeTurnsVanish(x, turns - 1, n);
    }
  }

  lemma OneTurnVanishes(x: int, n: int)
    requires n > 0
    ensures (x + n) % n == x % n
  {
    var q, r := x / n, x % n;
    assert x + n == (q + 1) * n + r;
    ModIs(x + n, q + 1, r, n);
  }

  lemma ModIs(x: int, q: int, r: int, n: int)
    requires n > 0 && x == q * n + r && 0 <= r < n
    ensures x % n == r
  {
    QuotientIs(x, n, q);
    assert x == (x / n) * n + x % n;
  }

  /** The quotient is the only k with k * d at or below x and less than d away. */
  lemma QuotientIs(x: int, d: int, k: int)
    requires d > 0
    ensures x / d == k <==> k * d <= x < k * d + d
  {
    var q := x / d;
    assert x == q * d + x % d;
    if q > k {
      MultiplesAreApart(k, q, d);
    } else if q < k {
      MultiplesAreApart(q, k, d);
    }
  }

  lemma MultiplesAreApart(j: int, k: int, d: nat)
    requires j < k
    ensures j * d + d <= k * d
  {
    ProductIsNatural(k - j - 1, d);
    assert k * d == j * d + d + (k - j - 1) * d;
  }

  lemma ProductIsNatural(x: nat, d: nat)
    ensures x * d >= 0
  {
  }

  lemma SomeElement<T>(s: set<T>) returns (x: T)
    requires s != {}
    ensures x in s
  {
    x :| x in s;
  }

  /** Reducing a summand first does not change the remainder. */
  lemma ModOfSum(a: nat, b: int, n: int)
    requires n > 0
    ensures (a % n + b) % n == (a + b) % n
  {
    var q := a / n;
    assert 0 <= q;
    WholeTurnsVanish(a % n + b, q, n);
    assert a % n + b + q * n == a + b;
  }
}
