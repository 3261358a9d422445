/** Subsequences: what is left of a sequence once some positions are removed. */
module Subsequences {

  /** at[k] is where s[k] sits in t. */
  ghost predicate Embeds<T>(s: seq<T>, t: seq<T>, at: seq<nat>) {
    && |at| == |s|
    && (forall j, k :: 0 <= j < k < |at| ==> at[j] < at[k])
    && (forall k :: 0 <= k < |at| ==> at[k] < |t| && s[k] == t[at[k]])
  }

  ghost predicate IsSubsequence<T>(s: seq<T>, t: seq<T>) {
    exists at: seq<nat> :: Embeds(s, t, at)
  }

  function Without<T>(t: seq<T>, from: nat, to: nat): (r: seq<T>)
    requires from <= to <= |t|
    ensures |r| == |t| - (to - from)
  {
    t[..from] + t[to..]
  }

  lemma Reflexive<T>(s: seq<T>)
    ensures IsSubsequence(s, s)
  {
    assert Embeds(s, s, seq(|s|, k => k));
  }

  lemma Transitive<T>(r: seq<T>, s: seq<T>, t: seq<T>)
    requires IsSubsequence(r, s) && IsSubsequence(s, t)
    ensures IsSubsequence(r, t)
  {
    var f: seq<nat> :| Embeds(r, s, f);
    var g: seq<nat> :| Embeds(s, t, g);
    assert Embeds(r, t, seq(|r|, k requires 0 <= k < |r| => g[f[k]]));
  }

  lemma WithoutIsSubsequence<T>(t: seq<T>, from: nat, to: nat)
    requires from <= to <= |t|
    ensures IsSubsequence(Without(t, from, to), t)
  {
    var at := seq(|t| - (to - from), k requires 0 <= k => if k < from then k else k + (to - from));
    assert Embeds(Without(t, from, to), t, at);
  }

  lemma {:induction false} PositionIsAtLeastIndex(at: seq<nat>, k: nat)
    requires forall i, j :: 0 <= i < j < |at| ==> at[i] < at[j]
    requires k < |at|
    ensures k <= at[k]
  {
    if k > 0 {
      PositionIsAtLeastIndex(at, k - 1);
    }
  }

  lemma NoLonger<T>(s: seq<T>, t: seq<T>)
    requires IsSubsequence(s, t)
    ensures |s| <= |t|
  {
    var at: seq<nat> :| Embeds(s, t, at);
    if |s| > 0 {
      PositionIsAtLeastIndex(at, |s| - 1);
    }
  }

  /** The first position of 0, 1, 2, ... that `at` does not visit. */
  lemma {:induction false} FirstGap(at: seq<nat>, from: nat, n: nat) returns (gap: nat)
    requires forall i, j :: 0 <= i < j < |at| ==> at[i] < at[j]
    requires forall i :: 0 <= i < |at| ==> at[i] < n
    requires from <= |at| < n
    requires forall i :: 0 <= i < from ==> at[i] == i
    ensures gap < n
    ensures forall i :: 0 <= i < |at| ==> at[i] != gap
    decreases |at| - from
  {
    if from == |at| || at[from] != from {
      if from < |at| {
        PositionIsAtLeastIndex(at, from);
      }
      gap := from;
    } else {
      gap := FirstGap(at, from + 1, n);
    }
  }

  /** A shorter subsequence of t misses some position, so it survives dropping that position alone. */
  lemma ProperMissesAPosition<T>(s: seq<T>, t: seq<T>) returns (gap: nat)
    requires IsSubsequence(s, t) && |s| < |t|
    ensures gap < |t|
    ensures IsSubsequence(s, Without(t, gap, gap + 1))
  {
    var at: seq<nat> :| Embeds(s, t, at);
    gap := FirstGap(at, 0, |t|);
    var shifted := seq(|s|, k requires 0 <= k < |s| => if at[k] < gap then at[k] else at[k] - 1);
    forall k | 0 <= k < |s|
      ensures 0 <= shifted[k] < |t| - 1 && s[k] == Without(t, gap, gap + 1)[shifted[k]]
    {
      assert at[k] != gap;
    }
    assert Embeds(s, Without(t, gap, gap + 1), shifted);
  }

  lemma ExtendBoth<T>(s: seq<T>, t: seq<T>, tail: seq<T>)
    requires IsSubsequence(s, t)
    ensures IsSubsequence(s + tail, t + tail)
  {
    var at: seq<nat> :| Embeds(s, t, at);
    var all := at + seq(|tail|, k requires 0 <= k => |t| + k);
    assert Embeds(s + tail, t + tail, all);
  }

  lemma PrependBoth<T>(head: seq<T>, s: seq<T>, t: seq<T>)
    requires IsSubsequence(s, t)
    ensures IsSubsequence(head + s, head + t)
  {
    var at: seq<nat> :| Embeds(s, t, at);
    var all := seq(|head| + |s|, k requires 0 <= k < |head| + |s| => if k < |head| then k else |head| + at[k - |head|]);
    assert Embeds(head + s, head + t, all);
  }

  lemma ExtendRight<T>(s: seq<T>, t: seq<T>, tail: seq<T>)
    requires IsSubsequence(s, t)
    ensures IsSubsequence(s, t + tail)
  {
    var at: seq<nat> :| Embeds(s, t, at);
    assert Embeds(s, t + tail, at);
  }
}
