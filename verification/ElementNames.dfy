/** When two engines' names mean the same element, crates/calliope-core/src/pipeline_diff.rs. */
module ElementNames {
  import opened Prelude

  predicate IsLower(c: char) {
    'a' <= c <= 'z'
  }

  predicate IsUpper(c: char) {
    'A' <= c <= 'Z'
  }

  predicate IsAlphanumeric(c: char) {
    IsDigit(c) || IsLower(c) || IsUpper(c)
  }

  function ToLower(c: char): char {
    if IsUpper(c) then 'a' + (c - 'A') else c
  }

  /** The form in which names are compared: letters and digits only, in lower case. */
  function Canonical(name: string): string {
    if name == [] then []
    else
      var front, c := Canonical(name[..|name| - 1]), name[|name| - 1];
      if IsAlphanumeric(c) then front + [ToLower(c)] else front
  }

  predicate IsInstanceOf(long: string, short: string) {
    short != [] && short <= long && AllDigits(long[|short|..])
  }

  predicate Match(left: string, right: string) {
    var l, r := Canonical(left), Canonical(right);
    l == r || IsInstanceOf(l, r) || IsInstanceOf(r, l)
  }

  // ----- the canonical form -----

  predicate IsCanonical(s: string) {
    forall i :: 0 <= i < |s| ==> IsDigit(s[i]) || IsLower(s[i])
  }

  lemma {:induction false} CanonicalFormIsCanonical(name: string)
    ensures IsCanonical(Canonical(name))
  {
    if name != [] {
      CanonicalFormIsCanonical(name[..|name| - 1]);
    }
  }

  lemma {:induction false} CanonicalStays(name: string)
    requires IsCanonical(name)
    ensures Canonical(name) == name
  {
    if name != [] {
      CanonicalStays(name[..|name| - 1]);
    }
  }

  lemma {:induction false} CanonicalOfBoth(name: string, more: string)
    ensures Canonical(name + more) == Canonical(name) + Canonical(more)
  {
    if more == [] {
      assert name + more == name;
    } else {
      var front := more[..|more| - 1];
      assert (name + more)[..|name + more| - 1] == name + front;
      CanonicalOfBoth(name, front);
    }
  }

  // ----- spelling -----

  const CAPITALS := "ABCDEFGHIJKLMNOPQRSTUVWXYZ"
  const SMALLS := "abcdefghijklmnopqrstuvwxyz"
  const DIGITS := "0123456789"

  ghost predicate IsCapitalOf(c: char, d: char) {
    exists i :: 0 <= i < 26 && CAPITALS[i] == c && SMALLS[i] == d
  }

  /** The same letter, large or small. */
  ghost predicate SameLetter(c: char, d: char) {
    c == d || IsCapitalOf(c, d) || IsCapitalOf(d, c)
  }

  predicate IsLetterOrDigit(c: char) {
    c in CAPITALS || c in SMALLS || c in DIGITS
  }

  lemma LetterAt(i: nat)
    requires i < 26
    ensures CAPITALS[i] as int == 'A' as int + i && SMALLS[i] as int == 'a' as int + i
  {
    assert i < 13 || i >= 13;
  }

  lemma DigitAt(i: nat)
    requires i < 10
    ensures DIGITS[i] as int == '0' as int + i
  {
  }

  lemma LettersAre(c: char)
    ensures IsUpper(c) <==> c in CAPITALS
    ensures IsLower(c) <==> c in SMALLS
    ensures IsDigit(c) <==> c in DIGITS
    ensures IsAlphanumeric(c) <==> IsLetterOrDigit(c)
  {
    forall i: nat | i < 26
      ensures CAPITALS[i] as int == 'A' as int + i && SMALLS[i] as int == 'a' as int + i
    {
      LetterAt(i);
    }
    forall i: nat | i < 10
      ensures DIGITS[i] as int == '0' as int + i
    {
      DigitAt(i);
    }
    if IsUpper(c) {
      assert CAPITALS[c as int - 'A' as int] == c;
    }
    if IsLower(c) {
      assert SMALLS[c as int - 'a' as int] == c;
    }
    if IsDigit(c) {
      assert DIGITS[c as int - '0' as int] == c;
    }
  }

  /** Lower case is the same for two letters if and only if they are the same letter. */
  lemma LowerMeans(c: char, d: char)
    ensures ToLower(c) == ToLower(d) <==> SameLetter(c, d)
  {
    CapitalMeans(c, d);
    CapitalMeans(d, c);
  }

  lemma CapitalMeans(c: char, d: char)
    ensures IsCapitalOf(c, d) <==> IsUpper(c) && ToLower(c) == d
  {
    if i :| 0 <= i < 26 && CAPITALS[i] == c && SMALLS[i] == d {
      LetterAt(i);
    }
    if IsUpper(c) {
      LetterAt(c as int - 'A' as int);
    }
  }

  function LettersAndDigits(name: string): string {
    if name == [] then []
    else
      var c := name[|name| - 1];
      LettersAndDigits(name[..|name| - 1]) + if IsLetterOrDigit(c) then [c] else []
  }

  lemma {:induction false} CanonicalIsLower(name: string)
    ensures |Canonical(name)| == |LettersAndDigits(name)|
    ensures forall i :: 0 <= i < |Canonical(name)| ==> Canonical(name)[i] == ToLower(LettersAndDigits(name)[i])
  {
    if name != [] {
      CanonicalIsLower(name[..|name| - 1]);
      LettersAre(name[|name| - 1]);
    }
  }

  /** The letters and digits of both agree, whatever their case and whatever is in between. */
  ghost predicate SpelledAlike(left: string, right: string) {
    Alike(LettersAndDigits(left), LettersAndDigits(right))
  }

  ghost predicate Alike(l: string, r: string) {
    |l| == |r| && forall i :: 0 <= i < |l| ==> SameLetter(l[i], r[i])
  }

  /** Names have one canonical form if and only if they are spelled alike. Then they match, and match the same names. */
  lemma {:induction false} CanonicalMeans(left: string, right: string)
    ensures Canonical(left) == Canonical(right) <==> SpelledAlike(left, right)
    ensures SpelledAlike(left, right) ==> Match(left, right)
    ensures SpelledAlike(left, right) ==> forall other :: Match(left, other) == Match(right, other)
  {
    CanonicalIsLower(left);
    CanonicalIsLower(right);
    var l, r := LettersAndDigits(left), LettersAndDigits(right);
    forall i | 0 <= i < |l| && i < |r|
      ensures Canonical(left)[i] == Canonical(right)[i] <==> SameLetter(l[i], r[i])
    {
      LowerMeans(l[i], r[i]);
    }
    if SpelledAlike(left, right) {
      assert Canonical(left) == Canonical(right);
    }
  }

  // ----- matching -----

  /** Taking the canonical form of a name changes nothing about what it matches. */
  lemma {:induction false} MatchIgnoresSpelling(left: string, right: string)
    ensures Match(Canonical(left), Canonical(right)) == Match(left, right)
  {
    CanonicalFormIsCanonical(left);
    CanonicalFormIsCanonical(right);
    CanonicalStays(Canonical(left));
    CanonicalStays(Canonical(right));
  }

  ghost predicate IsNumbered(long: string, short: string, digits: string) {
    AllDigits(digits) && long == short + digits && (digits != [] ==> short != [])
  }

  ghost predicate HasNumber(long: string, short: string) {
    exists digits :: IsNumbered(long, short, digits)
  }

  /** Two names match exactly when one's canonical form is the other's with an instance number, or nothing, after it. */
  lemma {:induction false} MatchMeans(left: string, right: string)
    ensures Match(left, right) <==>
            HasNumber(Canonical(left), Canonical(right)) || HasNumber(Canonical(right), Canonical(left))
  {
    NumberedMeans(Canonical(left), Canonical(right));
    NumberedMeans(Canonical(right), Canonical(left));
  }

  lemma NumberedMeans(long: string, short: string)
    ensures long == short || IsInstanceOf(long, short) <==> HasNumber(long, short)
  {
    if long == short {
      assert IsNumbered(long, short, []);
    } else if IsInstanceOf(long, short) {
      assert IsNumbered(long, short, long[|short|..]);
    }
    if digits :| IsNumbered(long, short, digits) {
      assert short <= long && long[|short|..] == digits;
      assert digits == [] ==> long == short;
    }
  }

  /** The letters and digits of one start like those of the other, and only digits follow, if any. */
  ghost predicate IsSpelledAsInstance(long: string, short: string) {
    var l, s := LettersAndDigits(long), LettersAndDigits(short);
    && |s| <= |l| && Alike(l[..|s|], s)
    && (forall i :: |s| <= i < |l| ==> l[i] in DIGITS)
    && (|s| < |l| ==> s != [])
  }

  /** Two names match exactly when one is spelled as an instance of the other. */
  lemma {:induction false} MatchMeansSpelling(left: string, right: string)
    ensures Match(left, right) <==> IsSpelledAsInstance(left, right) || IsSpelledAsInstance(right, left)
  {
    InstanceIsSpelled(left, right);
    InstanceIsSpelled(right, left);
  }

  lemma {:induction false} InstanceIsSpelled(long: string, short: string)
    ensures var l, s := Canonical(long), Canonical(short);
            l == s || IsInstanceOf(l, s) <==> IsSpelledAsInstance(long, short)
  {
    CanonicalIsLower(long);
    CanonicalIsLower(short);
    LowerIsInstance(LettersAndDigits(long), LettersAndDigits(short), Canonical(long), Canonical(short));
  }

  lemma LowerIsInstance(l: string, s: string, long: string, short: string)
    requires |long| == |l| && forall i :: 0 <= i < |l| ==> long[i] == ToLower(l[i])
    requires |short| == |s| && forall i :: 0 <= i < |s| ==> short[i] == ToLower(s[i])
    ensures long == short || IsInstanceOf(long, short)
            <==>
            && |s| <= |l| && Alike(l[..|s|], s)
            && (forall i :: |s| <= i < |l| ==> l[i] in DIGITS)
            && (|s| < |l| ==> s != [])
  {
    if |s| <= |l| {
      forall i | 0 <= i < |s|
        ensures long[i] == short[i] <==> SameLetter(l[i], s[i])
      {
        LowerMeans(l[i], s[i]);
      }
      forall i | |s| <= i < |l|
        ensures IsDigit(long[i]) <==> l[i] in DIGITS
      {
        LettersAre(l[i]);
      }
      assert short <= long <==> Alike(l[..|s|], s);
      assert AllDigits(long[|s|..]) <==> forall i :: |s| <= i < |l| ==> IsDigit(long[i]) by {
        assert forall i :: |s| <= i < |l| ==> long[|s|..][i - |s|] == long[i];
      }
    }
  }

  /** A numbered instance of a name with a letter or digit in it matches the name. */
  lemma {:induction false} InstanceMatches(name: string, digits: string)
    requires AllDigits(digits) && Canonical(name) != []
    ensures Match(name + digits, name) && Match(name, name + digits)
  {
    CanonicalOfBoth(name, digits);
    CanonicalStays(digits);
    var long := Canonical(name + digits);
    assert long[|Canonical(name)|..] == digits;
    assert IsInstanceOf(long, Canonical(name));
  }

  /** Matching is no equivalence: two instances match the name without a number, and not each other. */
  lemma {:induction false} InstancesDoNotMatch(name: string, digits: string, others: string)
    requires Canonical(name) != [] && AllDigits(digits) && AllDigits(others)
    requires |digits| == |others| && digits != others
    ensures Match(name + digits, name) && Match(name, name + others) && !Match(name + digits, name + others)
  {
    InstanceMatches(name, digits);
    InstanceMatches(name, others);
    CanonicalOfBoth(name, digits);
    CanonicalOfBoth(name, others);
    CanonicalStays(digits);
    CanonicalStays(others);
    SameLengthInstances(Canonical(name), digits, others);
  }

  lemma SameLengthInstances(short: string, digits: string, others: string)
    requires |digits| == |others| && digits != others
    ensures short + digits != short + others
    ensures !(short + digits <= short + others) && !(short + others <= short + digits)
  {
    assert (short + digits)[|short|..] == digits && (short + others)[|short|..] == others;
  }

  lemma SameLengthApart(left: string, right: string)
    requires IsCanonical(left) && IsCanonical(right) && |left| == |right| && left != right
    ensures !Match(left, right)
  {
    CanonicalStays(left);
    CanonicalStays(right);
  }

  // ----- synonyms -----

  type Synonyms = seq<(string, string)>

  predicate PairUp(synonyms: Synonyms, left: string, right: string) {
    exists i :: 0 <= i < |synonyms| && IsPair(synonyms[i], left, right)
  }

  predicate IsPair(pair: (string, string), left: string, right: string) {
    (Match(left, pair.0) && Match(right, pair.1)) || (Match(left, pair.1) && Match(right, pair.0))
  }

  predicate SameElement(synonyms: Synonyms, left: string, right: string) {
    Match(left, right) || PairUp(synonyms, left, right)
  }

  /** One name is spelled as an instance of the other. */
  ghost predicate IsSpelledLike(left: string, right: string) {
    IsSpelledAsInstance(left, right) || IsSpelledAsInstance(right, left)
  }

  ghost predicate AreNamedBy(pair: (string, string), left: string, right: string) {
    IsSpelledLike(left, pair.0) && IsSpelledLike(right, pair.1)
  }

  /** Two names mean the same element exactly when they are spelled alike, or like the two sides of a listed pair. */
  lemma SameElementMeans(synonyms: Synonyms, left: string, right: string)
    ensures SameElement(synonyms, left, right) <==>
            || IsSpelledLike(left, right)
            || (exists i :: 0 <= i < |synonyms| && AreNamedBy(synonyms[i], left, right))
            || (exists i :: 0 <= i < |synonyms| && AreNamedBy(synonyms[i], right, left))
  {
    MatchMeansSpelling(left, right);
    forall i | 0 <= i < |synonyms|
      ensures IsPair(synonyms[i], left, right) <==>
              AreNamedBy(synonyms[i], left, right) || AreNamedBy(synonyms[i], right, left)
    {
      PairMeans(synonyms[i], left, right);
    }
  }

  lemma PairMeans(pair: (string, string), left: string, right: string)
    ensures IsPair(pair, left, right) <==> AreNamedBy(pair, left, right) || AreNamedBy(pair, right, left)
  {
    MatchMeansSpelling(left, pair.0);
    MatchMeansSpelling(right, pair.1);
    MatchMeansSpelling(left, pair.1);
    MatchMeansSpelling(right, pair.0);
  }

  lemma SameElementIsSymmetric(synonyms: Synonyms, left: string, right: string)
    ensures SameElement(synonyms, left, left)
    ensures SameElement(synonyms, left, right) == SameElement(synonyms, right, left)
  {
    forall i | 0 <= i < |synonyms|
      ensures IsPair(synonyms[i], left, right) == IsPair(synonyms[i], right, left)
    {
    }
  }
}
