/** Orders of the places of a list, and lists that differ in their order only. */
module Orders {

  /** Where each place goes. */
  type Order = seq<nat>

  ghost predicate IsOrder(p: Order, n: nat) {
    && |p| == n
    && (forall i :: 0 <= i < n ==> p[i] < n)
    && (forall i, j :: 0 <= i < j < n ==> p[i] != p[j])
  }

  ghost function Below(n: nat): set<nat> {
    if n == 0 then {} else Below(n - 1) + {n - 1}
  }

  lemma {:induction false} BelowIs(n: nat)
    ensures |Below(n)| == n
    ensures forall k: nat :: k in Below(n) <==> k < n
  {
    if n > 0 {
      BelowIs(n - 1);
    }
  }

  ghost function Reached(p: Order): set<nat> {
    set k | k in p
  }

  lemma {:induction false} ReachedHasSize(p: Order)
    requires forall i, j :: 0 <= i < j < |p| ==> p[i] != p[j]
    ensures |Reached(p)| == |p|
  {
    if p != [] {
      var last := |p| - 1;
      ReachedHasSize(p[..last]);
      assert p == p[..last] + [p[last]];
      assert Reached(p) == Reached(p[..last]) + {p[last]};
    }
  }

  lemma EveryPlaceIsReached(p: Order, n: nat, k: nat)
    requires IsOrder(p, n) && k < n
    ensures k in p
  {
    BelowIs(n);
    ReachedHasSize(p);
    assert Reached(p) <= Below(n);
    assert Below(n) == Reached(p) + (Below(n) - Reached(p));
    assert k in Reached(p);
  }

  /** The place that goes to k. */
  ghost function Origin(p: Order, n: nat, k: nat): (i: nat)
    requires IsOrder(p, n) && k < n
    ensures i < n && p[i] == k
  {
    EveryPlaceIsReached(p, n, k);
    var i: nat :| i < n && p[i] == k;
    i
  }

  function Unmoved(n: nat): (p: Order)
    ensures |p| == n && forall i :: 0 <= i < n ==> p[i] == i
  {
    seq(n, i => i)
  }

  function Swapped(n: nat, a: nat, b: nat): (p: Order)
    ensures |p| == n && (a < n && b < n ==> IsOrder(p, n))
  {
    seq(n, i => if i == a then b else if i == b then a else i)
  }

  /** Each place of a goes to the place of b that p says. */
  ghost predicate Reorders<T>(a: seq<T>, b: seq<T>, p: Order) {
    |b| == |a| && IsOrder(p, |a|) && forall i :: 0 <= i < |a| ==> b[p[i]] == a[i]
  }

  function Less<T>(s: seq<T>, j: nat): (rest: seq<T>)
    requires j < |s|
    ensures |rest| == |s| - 1
  {
    s[..j] + s[j + 1..]
  }

  lemma LessHas<T>(s: seq<T>, j: nat)
    requires j < |s|
    ensures multiset(Less(s, j)) == multiset(s) - multiset{s[j]}
  {
    assert s == s[..j] + [s[j]] + s[j + 1..];
  }

  /** p without its last place, as an order of the list without the place that one goes to. */
  function LessLast(p: Order): (q: Order)
    requires p != []
  {
    var n := |p| - 1;
    seq(n, i requires 0 <= i < n => if p[i] <= p[n] then p[i] else p[i] - 1)
  }

  lemma LessIsReordered<T>(a: seq<T>, b: seq<T>, p: Order)
    requires a != [] && Reorders(a, b, p)
    ensures Reorders(a[..|a| - 1], Less(b, p[|a| - 1]), LessLast(p))
  {
    var n := |a| - 1;
    assert forall i :: 0 <= i < n ==> p[i] != p[n];
  }

  lemma {:induction false} ReorderedHasTheSame<T>(a: seq<T>, b: seq<T>, p: Order)
    requires Reorders(a, b, p)
    ensures multiset(a) == multiset(b)
  {
    if a != [] {
      var n := |a| - 1;
      LessIsReordered(a, b, p);
      ReorderedHasTheSame(a[..n], Less(b, p[n]), LessLast(p));
      LessHas(b, p[n]);
      assert a == a[..n] + [a[n]];
    }
  }

  lemma {:induction false} SameIsReordered<T>(a: seq<T>, b: seq<T>) returns (p: Order)
    requires multiset(a) == multiset(b)
    ensures Reorders(a, b, p)
  {
    assert |multiset(a)| == |multiset(b)|;
    p := [];
    if a != [] {
      var n := |a| - 1;
      var j := FindLast(a, b);
      LessHas(b, j);
      LessHas(a, n);
      assert Less(a, n) == a[..n];
      var q := SameIsReordered(a[..n], Less(b, j));
      p := PutBack(a, b, q, j);
    }
  }

  lemma FindLast<T>(a: seq<T>, b: seq<T>) returns (j: nat)
    requires a != [] && multiset(a) == multiset(b)
    ensures j < |b| && b[j] == a[|a| - 1]
  {
    assert a[|a| - 1] in multiset(b);
    j :| j < |b| && b[j] == a[|a| - 1];
  }

  lemma PutBack<T>(a: seq<T>, b: seq<T>, q: Order, j: nat) returns (p: Order)
    requires a != [] && |b| == |a| && j < |b| && b[j] == a[|a| - 1]
    requires Reorders(a[..|a| - 1], Less(b, j), q)
    ensures Reorders(a, b, p)
  {
    var n := |a| - 1;
    p := seq(n, i requires 0 <= i < n => if q[i] < j then q[i] else q[i] + 1) + [j];
    forall i | 0 <= i < n
      ensures b[p[i]] == a[i] && p[i] != j
    {
      assert Less(b, j)[q[i]] == a[..n][i];
    }
  }
}
