/** Which engine is wrong, crates/calliope-core/src/compare.rs: engines with the same frame hashes are one group, and a
    group of more than half of them is the majority. */
module MajorityVotes {
  import opened ElementNames

  type Hashes = seq<string>

  /** An engine and the hashes of its frames. */
  type Voter = (string, Hashes)

  datatype Vote = Vote(majority: seq<string>, outliers: seq<string>, conclusive: bool)

  // ----- equality without case -----

  predicate SameIgnoringCase(a: string, b: string) {
    |a| == |b| && forall i :: 0 <= i < |a| ==> ToLower(a[i]) == ToLower(b[i])
  }

  predicate FramesEqual(a: Hashes, b: Hashes) {
    |a| == |b| && forall i :: 0 <= i < |a| ==> SameIgnoringCase(a[i], b[i])
  }

  function Lower(s: string): (r: string)
    ensures |r| == |s|
  {
    seq(|s|, i requires 0 <= i < |s| => ToLower(s[i]))
  }

  /** What a class of engines has in common: the hashes in lower case. */
  function Key(hashes: Hashes): (r: Hashes)
    ensures |r| == |hashes|
  {
    seq(|hashes|, i requires 0 <= i < |hashes| => Lower(hashes[i]))
  }

  lemma SameIgnoringCaseIsSameLower(a: string, b: string)
    ensures SameIgnoringCase(a, b) <==> Lower(a) == Lower(b)
  {
    if Lower(a) == Lower(b) {
      assert |a| == |b|;
      forall i | 0 <= i < |a|
        ensures ToLower(a[i]) == ToLower(b[i])
      {
        assert Lower(a)[i] == Lower(b)[i];
      }
    }
  }

  lemma FramesEqualIsSameKey(a: Hashes, b: Hashes)
    ensures FramesEqual(a, b) <==> Key(a) == Key(b)
  {
    if Key(a) == Key(b) {
      assert |a| == |b|;
      forall i | 0 <= i < |a|
        ensures SameIgnoringCase(a[i], b[i])
      {
        SameIgnoringCaseIsSameLower(a[i], b[i]);
        assert Key(a)[i] == Key(b)[i];
      }
    } else if FramesEqual(a, b) {
      forall i | 0 <= i < |a|
        ensures Key(a)[i] == Key(b)[i]
      {
        SameIgnoringCaseIsSameLower(a[i], b[i]);
      }
    }
  }

  /** Two hashes are the same if they are so letter by letter, large or small, and frames if all their hashes are. */
  lemma FramesEqualMeans(a: Hashes, b: Hashes)
    ensures FramesEqual(a, b)
            <==> |a| == |b| && forall i :: 0 <= i < |a| ==> IsSameHash(a[i], b[i])
  {
    forall i | 0 <= i < |a| && i < |b|
      ensures SameIgnoringCase(a[i], b[i]) <==> IsSameHash(a[i], b[i])
    {
      SameHashMeans(a[i], b[i]);
    }
  }

  ghost predicate IsSameHash(a: string, b: string) {
    |a| == |b| && forall i :: 0 <= i < |a| ==> SameLetter(a[i], b[i])
  }

  lemma SameHashMeans(a: string, b: string)
    ensures SameIgnoringCase(a, b) <==> IsSameHash(a, b)
  {
    forall i | 0 <= i < |a| && i < |b|
      ensures ToLower(a[i]) == ToLower(b[i]) <==> SameLetter(a[i], b[i])
    {
      LowerMeans(a[i], b[i]);
    }
  }

  // ----- classes -----

  /** The engines of a class, in order. */
  function Class(engines: seq<Voter>, key: Hashes): seq<Voter> {
    if engines == [] then []
    else
      var front, last := engines[..|engines| - 1], engines[|engines| - 1];
      Class(front, key) + if Key(last.1) == key then [last] else []
  }

  lemma {:induction false} ClassOneMore(engines: seq<Voter>, v: Voter, key: Hashes)
    ensures Class(engines + [v], key) == Class(engines, key) + if Key(v.1) == key then [v] else []
  {
    var more := engines + [v];
    assert more[..|more| - 1] == engines;
  }

  lemma {:induction false} ClassHasTheKey(engines: seq<Voter>, key: Hashes, v: Voter)
    ensures multiset(Class(engines, key))[v] == if Key(v.1) == key then multiset(engines)[v] else 0
  {
    if engines != [] {
      var n := |engines| - 1;
      ClassHasTheKey(engines[..n], key, v);
      assert engines == engines[..n] + [engines[n]];
    }
  }

  lemma {:induction false} TwoClassesFit(engines: seq<Voter>, a: Hashes, b: Hashes)
    requires a != b
    ensures |Class(engines, a)| + |Class(engines, b)| <= |engines|
  {
    if engines != [] {
      TwoClassesFit(engines[..|engines| - 1], a, b);
    }
  }

  predicate IsMajority(engines: seq<Voter>, key: Hashes) {
    2 * |Class(engines, key)| > |engines|
  }

  lemma MajorityIsUnique(engines: seq<Voter>, a: Hashes, b: Hashes)
    requires IsMajority(engines, a) && IsMajority(engines, b)
    ensures a == b
  {
    if a != b {
      TwoClassesFit(engines, a, b);
    }
  }

  // ----- what a vote says -----

  function Ids(voters: seq<Voter>): (r: seq<string>)
    ensures |r| == |voters|
  {
    seq(|voters|, i requires 0 <= i < |voters| => voters[i].0)
  }

  ghost predicate IsConclusive(engines: seq<Voter>) {
    |engines| >= 3 && exists key :: IsMajority(engines, key)
  }

  /** The keys of the classes, in the order in which they first appear. */
  function KeysSeen(engines: seq<Voter>): seq<Hashes> {
    if engines == [] then []
    else
      var before, key := KeysSeen(engines[..|engines| - 1]), Key(engines[|engines| - 1].1);
      if key in before then before else before + [key]
  }

  /** Class after class, save a majority that counts. */
  function OutlierClasses(engines: seq<Voter>, keys: seq<Hashes>, conclusive: bool): seq<Voter> {
    if keys == [] then []
    else
      var front, last := keys[..|keys| - 1], keys[|keys| - 1];
      OutlierClasses(engines, front, conclusive)
      + if conclusive && IsMajority(engines, last) then [] else Class(engines, last)
  }

  ghost predicate IsSplit(engines: seq<Voter>, conclusive: bool, majority: seq<Voter>, outliers: seq<Voter>) {
    && outliers == OutlierClasses(engines, KeysSeen(engines), conclusive)
    && multiset(majority) + multiset(outliers) == multiset(engines)
    && (if conclusive then forall key :: IsMajority(engines, key) ==> majority == Class(engines, key) else majority == [])
  }

  /** The vote is conclusive if there are at least three engines and one class has more than half of them. Then that class
      is the majority, else there is none. All others are outliers, class by class as they first appear. */
  ghost predicate IsVote(engines: seq<Voter>, vote: Vote) {
    && vote.conclusive == IsConclusive(engines)
    && exists majority, outliers ::
         IsSplit(engines, vote.conclusive, majority, outliers) && HasIds(vote, majority, outliers)
  }

  predicate HasIds(vote: Vote, majority: seq<Voter>, outliers: seq<Voter>) {
    vote.majority == Ids(majority) && vote.outliers == Ids(outliers)
  }

  // ----- grouping -----

  type Group = seq<nat>

  predicate Below(g: Group, n: nat) {
    forall k :: 0 <= k < |g| ==> g[k] < n
  }

  function Members(engines: seq<Voter>, g: Group): (r: seq<Voter>)
    requires Below(g, |engines|)
    ensures |r| == |g|
  {
    seq(|g|, k requires 0 <= k < |g| => engines[g[k]])
  }

  /** The group is the class of this key among the first n engines. */
  ghost predicate IsGroup(engines: seq<Voter>, n: nat, g: Group, key: Hashes)
    requires n <= |engines|
  {
    g != [] && Below(g, n) && Members(engines, g) == Class(engines[..n], key) && Key(engines[g[0]].1) == key
  }

  ghost predicate Distinct(keys: seq<Hashes>) {
    forall a, b :: 0 <= a < b < |keys| ==> keys[a] != keys[b]
  }

  /** One group for each class among the first n engines. */
  ghost predicate IsGrouping(engines: seq<Voter>, n: nat, groups: seq<Group>, keys: seq<Hashes>)
    requires n <= |engines|
  {
    && |keys| == |groups|
    && Distinct(keys)
    && (forall a :: 0 <= a < |groups| ==> IsGroup(engines, n, groups[a], keys[a]))
    && (forall i :: 0 <= i < n ==> Key(engines[i].1) in keys)
  }

  lemma GroupStays(engines: seq<Voter>, n: nat, g: Group, key: Hashes)
    requires n < |engines| && IsGroup(engines, n, g, key) && Key(engines[n].1) != key
    ensures IsGroup(engines, n + 1, g, key)
  {
    assert engines[..n + 1] == engines[..n] + [engines[n]];
    ClassOneMore(engines[..n], engines[n], key);
  }

  lemma GroupGrows(engines: seq<Voter>, n: nat, g: Group, key: Hashes)
    requires n < |engines| && IsGroup(engines, n, g, key) && Key(engines[n].1) == key
    ensures IsGroup(engines, n + 1, g + [n], key)
  {
    assert engines[..n + 1] == engines[..n] + [engines[n]];
    ClassOneMore(engines[..n], engines[n], key);
    assert Members(engines, g + [n]) == Members(engines, g) + [engines[n]];
  }

  lemma GroupStarts(engines: seq<Voter>, n: nat, key: Hashes)
    requires n < |engines| && Key(engines[n].1) == key
    requires forall i :: 0 <= i < n ==> Key(engines[i].1) != key
    ensures IsGroup(engines, n + 1, [n], key)
  {
    assert engines[..n + 1] == engines[..n] + [engines[n]];
    ClassOneMore(engines[..n], engines[n], key);
    NoneHasTheKey(engines[..n], key);
    assert Members(engines, [n]) == [engines[n]];
  }

  lemma {:induction false} NoneHasTheKey(engines: seq<Voter>, key: Hashes)
    requires forall i :: 0 <= i < |engines| ==> Key(engines[i].1) != key
    ensures Class(engines, key) == []
  {
    if engines != [] {
      NoneHasTheKey(engines[..|engines| - 1], key);
    }
  }

  /** Adds engine n to the group of its class, or starts one. */
  method AddEngine(engines: seq<Voter>, n: nat, groups: seq<Group>, ghost keys: seq<Hashes>)
    returns (more: seq<Group>, ghost moreKeys: seq<Hashes>)
    requires n < |engines| && IsGrouping(engines, n, groups, keys)
    ensures IsGrouping(engines, n + 1, more, moreKeys)
    ensures var key := Key(engines[n].1); moreKeys == if key in keys then keys else keys + [key]
  {
    ghost var key := Key(engines[n].1);
    for a := 0 to |groups|
      invariant forall b :: 0 <= b < a ==> keys[b] != key
    {
      assert IsGroup(engines, n, groups[a], keys[a]);
      FramesEqualIsSameKey(engines[groups[a][0]].1, engines[n].1);
      if FramesEqual(engines[groups[a][0]].1, engines[n].1) {
        more, moreKeys := groups[a := groups[a] + [n]], keys;
        JoinIsGrouping(engines, n, groups, keys, a);
        return;
      }
    }
    more, moreKeys := groups + [[n]], keys + [key];
    StartIsGrouping(engines, n, groups, keys);
  }

  lemma SeenOneMore(engines: seq<Voter>, n: nat)
    requires n < |engines|
    ensures var before, key := KeysSeen(engines[..n]), Key(engines[n].1);
            KeysSeen(engines[..n + 1]) == if key in before then before else before + [key]
  {
    assert engines[..n + 1][..n] == engines[..n];
  }

  lemma JoinIsGrouping(engines: seq<Voter>, n: nat, groups: seq<Group>, keys: seq<Hashes>, a: nat)
    requires n < |engines| && IsGrouping(engines, n, groups, keys)
    requires a < |groups| && keys[a] == Key(engines[n].1)
    ensures IsGrouping(engines, n + 1, groups[a := groups[a] + [n]], keys)
  {
    GroupGrows(engines, n, groups[a], keys[a]);
    forall b | 0 <= b < |groups| && b != a
      ensures IsGroup(engines, n + 1, groups[b], keys[b])
    {
      assert keys[b] != keys[a];
      GroupStays(engines, n, groups[b], keys[b]);
    }
  }

  lemma StartIsGrouping(engines: seq<Voter>, n: nat, groups: seq<Group>, keys: seq<Hashes>)
    requires n < |engines| && IsGrouping(engines, n, groups, keys)
    requires Key(engines[n].1) !in keys
    ensures IsGrouping(engines, n + 1, groups + [[n]], keys + [Key(engines[n].1)])
  {
    var key := Key(engines[n].1);
    GroupStarts(engines, n, key);
    forall b | 0 <= b < |groups|
      ensures IsGroup(engines, n + 1, groups[b], keys[b])
    {
      assert keys[b] in keys;
      GroupStays(engines, n, groups[b], keys[b]);
    }
  }

  /** One group for each class of the engines. */
  ghost predicate AreGroups(engines: seq<Voter>, groups: seq<Group>) {
    IsGrouping(engines, |engines|, groups, KeysSeen(engines))
  }

  method GroupEngines(engines: seq<Voter>) returns (groups: seq<Group>)
    ensures AreGroups(engines, groups)
  {
    groups := [];
    ghost var keys: seq<Hashes> := [];
    for i := 0 to |engines|
      invariant IsGrouping(engines, i, groups, keys) && keys == KeysSeen(engines[..i])
    {
      SeenOneMore(engines, i);
      groups, keys := AddEngine(engines, i, groups, keys);
    }
    assert engines[..|engines|] == engines;
  }

  // ----- the vote -----

  method Largest(groups: seq<Group>) returns (largest: nat)
    ensures forall a :: 0 <= a < |groups| ==> |groups[a]| <= largest
    ensures if groups == [] then largest == 0 else exists a :: 0 <= a < |groups| && |groups[a]| == largest
  {
    largest := 0;
    for a := 0 to |groups|
      invariant forall b :: 0 <= b < a ==> |groups[b]| <= largest
      invariant if a == 0 then largest == 0 else exists b :: 0 <= b < a && |groups[b]| == largest
    {
      if a == 0 || |groups[a]| > largest {
        largest := |groups[a]|;
      }
    }
  }

  method CountOf(groups: seq<Group>, size: nat) returns (count: nat)
    ensures count > 1 <==> exists a, b :: 0 <= a < b < |groups| && |groups[a]| == size == |groups[b]|
  {
    count := 0;
    for a := 0 to |groups|
      invariant count >= 1 <==> exists b :: 0 <= b < a && |groups[b]| == size
      invariant count > 1 <==> exists b, c :: 0 <= b < c < a && |groups[b]| == size == |groups[c]|
    {
      if |groups[a]| == size {
        count := count + 1;
      }
    }
  }

  /** The group of a class of more than half of the engines is the largest, and no other is as large. */
  lemma LargestIsMajority(engines: seq<Voter>, groups: seq<Group>, keys: seq<Hashes>, a: nat)
    requires IsGrouping(engines, |engines|, groups, keys) && a < |groups|
    ensures 2 * |groups[a]| > |engines| <==> IsMajority(engines, keys[a])
    ensures 2 * |groups[a]| > |engines| ==> forall b :: 0 <= b < |groups| && b != a ==> |groups[b]| < |groups[a]|
  {
    assert engines[..|engines|] == engines;
    assert IsGroup(engines, |engines|, groups[a], keys[a]);
    forall b | 0 <= b < |groups| && b != a
      ensures |groups[a]| + |groups[b]| <= |engines|
    {
      assert IsGroup(engines, |engines|, groups[b], keys[b]);
      TwoClassesFit(engines, keys[a], keys[b]);
    }
  }

  /** A majority has a group. */
  lemma MajorityHasAGroup(engines: seq<Voter>, groups: seq<Group>, keys: seq<Hashes>, key: Hashes) returns (a: nat)
    requires IsGrouping(engines, |engines|, groups, keys) && IsMajority(engines, key)
    ensures a < |groups| && keys[a] == key
  {
    if forall i :: 0 <= i < |engines| ==> Key(engines[i].1) != key {
      NoneHasTheKey(engines, key);
    }
    var i :| 0 <= i < |engines| && Key(engines[i].1) == key;
    a :| 0 <= a < |keys| && keys[a] == key;
  }

  /** These voters are the engines whose class is among `keys`. */
  ghost predicate AreThose(engines: seq<Voter>, keys: set<Hashes>, voters: seq<Voter>) {
    forall v :: multiset(voters)[v] == if Key(v.1) in keys then multiset(engines)[v] else 0
  }

  lemma {:induction false} OneClassMore(engines: seq<Voter>, keys: set<Hashes>, voters: seq<Voter>, key: Hashes)
    requires AreThose(engines, keys, voters) && key !in keys
    ensures AreThose(engines, keys + {key}, voters + Class(engines, key))
  {
    forall v
      ensures multiset(voters + Class(engines, key))[v] == if Key(v.1) in keys + {key} then multiset(engines)[v] else 0
    {
      ClassHasTheKey(engines, key, v);
    }
  }

  lemma IdsOfBoth(a: seq<Voter>, b: seq<Voter>)
    ensures Ids(a + b) == Ids(a) + Ids(b)
  {
  }

  /** The names in a group. */
  method Names(engines: seq<Voter>, g: Group) returns (ids: seq<string>)
    requires Below(g, |engines|)
    ensures ids == Ids(Members(engines, g))
  {
    ids := [];
    for k := 0 to |g|
      invariant ids == Ids(Members(engines, g)[..k])
    {
      ids := ids + [engines[g[k]].0];
    }
  }

  function KeysBelow(keys: seq<Hashes>, n: nat): set<Hashes>
    requires n <= |keys|
  {
    set k | k in keys[..n]
  }

  /** Which of the engines seen so far are in the majority and which are not. */
  ghost predicate Parted(engines: seq<Voter>, seen: set<Hashes>, winners: set<Hashes>, majority: seq<Voter>,
                         outliers: seq<Voter>) {
    && AreThose(engines, seen - winners, outliers)
    && (if seen * winners == {} then majority == []
        else forall key :: key in seen * winners ==> majority == Class(engines, key))
  }

  /** The voters of the first n classes, as the loop has put them on one side or the other. */
  ghost predicate PartedBelow(engines: seq<Voter>, keys: seq<Hashes>, n: nat, winners: set<Hashes>, conclusive: bool,
                              majority: seq<Voter>, outliers: seq<Voter>)
    requires n <= |keys|
  {
    && Parted(engines, KeysBelow(keys, n), winners, majority, outliers)
    && outliers == OutlierClasses(engines, keys[..n], conclusive)
  }

  lemma {:induction false} PartOneMore(engines: seq<Voter>, keys: seq<Hashes>, n: nat, winners: set<Hashes>,
                                       conclusive: bool, majority: seq<Voter>, outliers: seq<Voter>)
    requires n < |keys| && Distinct(keys) && PartedBelow(engines, keys, n, winners, conclusive, majority, outliers)
    requires forall a, b :: a in winners && b in winners ==> a == b
    requires keys[n] in winners <==> conclusive && IsMajority(engines, keys[n])
    ensures var won, members := keys[n] in winners, Class(engines, keys[n]);
            PartedBelow(engines, keys, n + 1, winners, conclusive, if won then majority + members else majority,
                        if won then outliers else outliers + members)
  {
    KeyOneMore(keys, n);
    OutliersOneMore(engines, keys, n, conclusive);
    if keys[n] in winners {
      PartWinner(engines, KeysBelow(keys, n), winners, majority, outliers, keys[n]);
    } else {
      PartOutlier(engines, KeysBelow(keys, n), winners, majority, outliers, keys[n]);
    }
  }

  lemma {:induction false} OutliersOneMore(engines: seq<Voter>, keys: seq<Hashes>, n: nat, conclusive: bool)
    requires n < |keys|
    ensures OutlierClasses(engines, keys[..n + 1], conclusive)
            == OutlierClasses(engines, keys[..n], conclusive)
               + if conclusive && IsMajority(engines, keys[n]) then [] else Class(engines, keys[n])
  {
    assert keys[..n + 1][..n] == keys[..n];
  }

  method Part(engines: seq<Voter>, groups: seq<Group>, ghost keys: seq<Hashes>, conclusive: bool, largest: nat,
              ghost winners: set<Hashes>)
    returns (majority: seq<string>, outliers: seq<string>, ghost inside: seq<Voter>, ghost outside: seq<Voter>)
    requires IsGrouping(engines, |engines|, groups, keys)
    requires forall a :: 0 <= a < |groups| ==> (keys[a] in winners <==> conclusive && |groups[a]| == largest)
    requires forall a :: 0 <= a < |groups| ==> (keys[a] in winners <==> conclusive && IsMajority(engines, keys[a]))
    requires forall a, b :: a in winners && b in winners ==> a == b
    ensures PartedBelow(engines, keys, |keys|, winners, conclusive, inside, outside)
    ensures majority == Ids(inside) && outliers == Ids(outside)
  {
    majority, outliers, inside, outside := [], [], [], [];
    for a := 0 to |groups|
      invariant PartedBelow(engines, keys, a, winners, conclusive, inside, outside)
      invariant majority == Ids(inside) && outliers == Ids(outside)
    {
      ghost var members := GroupIsClass(engines, groups[a], keys[a]);
      var names := Names(engines, groups[a]);
      PartOneMore(engines, keys, a, winners, conclusive, inside, outside);
      if conclusive && |groups[a]| == largest {
        IdsOfBoth(inside, members);
        majority, inside := majority + names, inside + members;
      } else {
        IdsOfBoth(outside, members);
        outliers, outside := outliers + names, outside + members;
      }
    }
  }

  lemma GroupIsClass(engines: seq<Voter>, g: Group, key: Hashes) returns (members: seq<Voter>)
    requires IsGroup(engines, |engines|, g, key)
    ensures Below(g, |engines|) && members == Members(engines, g) == Class(engines, key)
  {
    assert engines[..|engines|] == engines;
    members := Members(engines, g);
  }

  lemma KeyOneMore(keys: seq<Hashes>, a: nat)
    requires Distinct(keys) && a < |keys|
    ensures keys[a] !in KeysBelow(keys, a) && KeysBelow(keys, a + 1) == KeysBelow(keys, a) + {keys[a]}
  {
    assert keys[..a + 1] == keys[..a] + [keys[a]];
  }

  lemma {:induction false} PartWinner(engines: seq<Voter>, seen: set<Hashes>, winners: set<Hashes>,
                                      majority: seq<Voter>, outliers: seq<Voter>,
                   key: Hashes)
    requires Parted(engines, seen, winners, majority, outliers) && key !in seen && key in winners
    requires forall a, b :: a in winners && b in winners ==> a == b
    ensures Parted(engines, seen + {key}, winners, majority + Class(engines, key), outliers)
  {
    assert forall k :: k in seen * winners ==> k == key;
    assert seen * winners == {};
    assert (seen + {key}) - winners == seen - winners;
    assert (seen + {key}) * winners == {key};
    assert [] + Class(engines, key) == Class(engines, key);
  }

  lemma {:induction false} PartOutlier(engines: seq<Voter>, seen: set<Hashes>, winners: set<Hashes>,
                                       majority: seq<Voter>, outliers: seq<Voter>,
                    key: Hashes)
    requires Parted(engines, seen, winners, majority, outliers) && key !in seen && key !in winners
    ensures Parted(engines, seen + {key}, winners, majority, outliers + Class(engines, key))
  {
    OneClassMore(engines, seen - winners, outliers, key);
    assert (seen + {key}) - winners == seen - winners + {key};
    assert (seen + {key}) * winners == seen * winners;
  }

  method MajorityVote(engines: seq<Voter>) returns (vote: Vote)
    ensures IsVote(engines, vote)
  {
    var groups := GroupEngines(engines);
    ghost var keys := KeysSeen(engines);
    var largest := Largest(groups);
    var count := CountOf(groups, largest);
    var conclusive := |engines| >= 3 && !(count > 1) && largest * 2 > |engines|;
    ghost var winners := Winners(engines, groups, keys, conclusive, largest);
    var majority, outliers, inside, outside := Part(engines, groups, keys, conclusive, largest, winners);
    PartedIsSplit(engines, keys, winners, conclusive, inside, outside);
    vote := Vote(majority, outliers, conclusive);
    assert HasIds(vote, inside, outside);
  }

  /** The test for a majority is right, and the largest group is the majority. */
  lemma Winners(engines: seq<Voter>, groups: seq<Group>, keys: seq<Hashes>, conclusive: bool, largest: nat)
    returns (winners: set<Hashes>)
    requires IsGrouping(engines, |engines|, groups, keys)
    requires forall a :: 0 <= a < |groups| ==> |groups[a]| <= largest
    requires if groups == [] then largest == 0 else exists a :: 0 <= a < |groups| && |groups[a]| == largest
    requires conclusive <==> |engines| >= 3 && largest * 2 > |engines|
                             && !(exists a, b :: 0 <= a < b < |groups| && |groups[a]| == largest == |groups[b]|)
    ensures conclusive == IsConclusive(engines)
    ensures forall a :: 0 <= a < |groups| ==> (keys[a] in winners <==> conclusive && |groups[a]| == largest)
    ensures forall key :: key in winners <==> conclusive && IsMajority(engines, key)
    ensures forall a, b :: a in winners && b in winners ==> a == b
    ensures winners <= KeysBelow(keys, |keys|) && (conclusive ==> winners != {})
  {
    winners := {};
    if |engines| >= 3 && largest * 2 > |engines| {
      var a :| 0 <= a < |groups| && |groups[a]| == largest;
      LargestIsMajority(engines, groups, keys, a);
      winners := {keys[a]};
      forall key | IsMajority(engines, key)
        ensures key == keys[a]
      {
        MajorityIsUnique(engines, key, keys[a]);
      }
    } else if |engines| >= 3 {
      forall key
        ensures !IsMajority(engines, key)
      {
        if IsMajority(engines, key) {
          var a := MajorityHasAGroup(engines, groups, keys, key);
          LargestIsMajority(engines, groups, keys, a);
        }
      }
    }
  }

  lemma {:induction false} PartedIsSplit(engines: seq<Voter>, keys: seq<Hashes>, winners: set<Hashes>,
                                         conclusive: bool, majority: seq<Voter>, outliers: seq<Voter>)
    requires keys == KeysSeen(engines) && PartedBelow(engines, keys, |keys|, winners, conclusive, majority, outliers)
    requires forall i :: 0 <= i < |engines| ==> Key(engines[i].1) in keys
    requires forall key :: key in winners <==> conclusive && IsMajority(engines, key)
    requires forall a, b :: a in winners && b in winners ==> a == b
    requires winners <= KeysBelow(keys, |keys|) && (conclusive ==> winners != {})
    ensures IsSplit(engines, conclusive, majority, outliers)
  {
    assert KeysBelow(keys, |keys|) * winners == winners;
    assert keys[..|keys|] == keys;
    BothSidesAreAll(engines, KeysBelow(keys, |keys|), winners, majority, outliers);
  }

  lemma BothSidesAreAll(engines: seq<Voter>, seen: set<Hashes>, winners: set<Hashes>, majority: seq<Voter>,
                        outliers: seq<Voter>)
    requires Parted(engines, seen, winners, majority, outliers) && winners <= seen
    requires forall i :: 0 <= i < |engines| ==> Key(engines[i].1) in seen
    requires forall a, b :: a in winners && b in winners ==> a == b
    ensures multiset(majority) + multiset(outliers) == multiset(engines)
  {
    forall v
      ensures (multiset(majority) + multiset(outliers))[v] == multiset(engines)[v]
    {
      assert v in engines ==> Key(v.1) in seen;
      OneSideEach(engines, seen, winners, majority, outliers, v);
    }
  }

  lemma OneSideEach(engines: seq<Voter>, seen: set<Hashes>, winners: set<Hashes>, majority: seq<Voter>,
                    outliers: seq<Voter>, v: Voter)
    requires Parted(engines, seen, winners, majority, outliers) && winners <= seen && (v in engines ==> Key(v.1) in seen)
    requires forall a, b :: a in winners && b in winners ==> a == b
    ensures multiset(majority)[v] + multiset(outliers)[v] == multiset(engines)[v]
  {
    assert seen * winners == winners;
    if winner :| winner in winners {
      ClassHasTheKey(engines, winner, v);
      assert Key(v.1) in winners <==> Key(v.1) == winner;
    }
  }

  // ----- what follows -----

  /** Every engine is in the majority or an outlier, once. */
  lemma EveryEngineOnce(engines: seq<Voter>, vote: Vote)
    requires IsVote(engines, vote)
    ensures multiset(vote.majority) + multiset(vote.outliers) == multiset(Ids(engines))
  {
    var majority, outliers :| IsSplit(engines, vote.conclusive, majority, outliers) && HasIds(vote, majority, outliers);
    IdsOfBoth(majority, outliers);
    SameVotersSameIds(majority + outliers, engines);
  }

  lemma {:induction false} SameVotersSameIds(a: seq<Voter>, b: seq<Voter>)
    requires multiset(a) == multiset(b)
    ensures multiset(Ids(a)) == multiset(Ids(b))
    decreases |a|
  {
    if a == [] {
      assert |multiset(b)| == 0;
      assert Ids(a) == Ids(b);
    } else {
      var n := |a| - 1;
      var i := Find(a[n], b);
      assert a == a[..n] + [a[n]];
      assert b == b[..i] + [b[i]] + b[i + 1..];
      var rest := b[..i] + b[i + 1..];
      assert multiset(a[..n]) == multiset(a) - multiset{a[n]};
      assert multiset(rest) == multiset(b) - multiset{b[i]};
      SameVotersSameIds(a[..n], rest);
      IdsOfBoth(a[..n], [a[n]]);
      IdsOfBoth(b[..i], b[i + 1..]);
      IdsOfBoth(b[..i], [b[i]]);
      IdsOfBoth(b[..i] + [b[i]], b[i + 1..]);
    }
  }

  lemma Find(v: Voter, b: seq<Voter>) returns (i: nat)
    requires multiset(b)[v] > 0
    ensures i < |b| && b[i] == v
  {
    assert v in b;
    i :| 0 <= i < |b| && b[i] == v;
  }

  /** In whatever order the engines come, the vote comes out the same. */
  lemma OrderDoesNotMatter(a: seq<Voter>, b: seq<Voter>, voteA: Vote, voteB: Vote)
    requires multiset(a) == multiset(b) && IsVote(a, voteA) && IsVote(b, voteB)
    ensures voteA.conclusive == voteB.conclusive
    ensures multiset(voteA.majority) == multiset(voteB.majority)
    ensures multiset(voteA.outliers) == multiset(voteB.outliers)
  {
    ConclusiveInAnyOrder(a, b);
    var insideA, outsideA :| IsSplit(a, voteA.conclusive, insideA, outsideA) && HasIds(voteA, insideA, outsideA);
    var insideB, outsideB :| IsSplit(b, voteB.conclusive, insideB, outsideB) && HasIds(voteB, insideB, outsideB);
    SplitsAgree(a, b, voteA.conclusive, insideA, outsideA, insideB, outsideB);
    SameVotersSameIds(insideA, insideB);
    SameVotersSameIds(outsideA, outsideB);
  }

  lemma SplitsAgree(a: seq<Voter>, b: seq<Voter>, conclusive: bool, insideA: seq<Voter>, outsideA: seq<Voter>,
                    insideB: seq<Voter>, outsideB: seq<Voter>)
    requires multiset(a) == multiset(b) && (conclusive ==> IsConclusive(a))
    requires IsSplit(a, conclusive, insideA, outsideA) && IsSplit(b, conclusive, insideB, outsideB)
    ensures multiset(insideA) == multiset(insideB) && multiset(outsideA) == multiset(outsideB)
  {
    if conclusive {
      var key :| IsMajority(a, key);
      SameClass(a, b, key);
      assert insideA == Class(a, key) && insideB == Class(b, key);
    }
    SameRest(multiset(insideA), multiset(outsideA), multiset(insideB), multiset(outsideB));
  }

  lemma SameRest<T>(insideA: multiset<T>, outsideA: multiset<T>, insideB: multiset<T>, outsideB: multiset<T>)
    requires insideA == insideB && insideA + outsideA == insideB + outsideB
    ensures outsideA == outsideB
  {
    assert outsideA == (insideA + outsideA) - insideA && outsideB == (insideB + outsideB) - insideB;
  }

  lemma {:induction false} SameClass(a: seq<Voter>, b: seq<Voter>, key: Hashes)
    requires multiset(a) == multiset(b)
    ensures multiset(Class(a, key)) == multiset(Class(b, key))
    ensures |Class(a, key)| == |Class(b, key)| && |a| == |b|
    ensures IsMajority(a, key) == IsMajority(b, key)
  {
    forall v
      ensures multiset(Class(a, key))[v] == multiset(Class(b, key))[v]
    {
      ClassHasTheKey(a, key, v);
      ClassHasTheKey(b, key, v);
    }
    SizeOf(a, b);
    SizeOf(Class(a, key), Class(b, key));
  }

  lemma SizeOf(a: seq<Voter>, b: seq<Voter>)
    requires multiset(a) == multiset(b)
    ensures |a| == |b|
  {
    assert |multiset(a)| == |multiset(b)|;
  }

  lemma ConclusiveInAnyOrder(a: seq<Voter>, b: seq<Voter>)
    requires multiset(a) == multiset(b)
    ensures IsConclusive(a) == IsConclusive(b)
  {
    SizeOf(a, b);
    forall key
      ensures IsMajority(a, key) == IsMajority(b, key)
    {
      SameClass(a, b, key);
    }
  }
}
