/** The digests of a looped clip, crates/calliope-cli/src/canary/checks.rs: a table has a line for each frame, its pts and
    its digest. */
module HashTables {
  import opened Prelude

  /** At which frames each digest is, since frames can look alike. */
  datatype HashTable = HashTable(indices: map<string, seq<nat>>, frames: nat) {
    ghost predicate Valid() {
      && frames > 0
      && forall d :: d in indices ==> indices[d] != [] && forall i :: 0 <= i < |indices[d]| ==> indices[d][i] < frames
    }

    ghost predicate At(digest: string, index: nat) {
      digest in indices && index in indices[digest]
    }
  }

  // ----- one line -----

  predicate IsHex(digest: string) {
    digest != [] && forall i :: 0 <= i < |digest| ==> IsDigit(digest[i]) || 'a' <= digest[i] <= 'f'
  }

  /** The part before the first separator and the part after it. */
  function SplitOnce(s: string, separator: char): (r: Option<(string, string)>)
    ensures r.Some? ==> s == r.value.0 + [separator] + r.value.1 && separator !in r.value.0
    ensures r.None? <==> separator !in s
  {
    if s == [] then None
    else if s[0] == separator then Some(([], s[1..]))
    else
      var rest := SplitOnce(s[1..], separator);
      if rest.None? then None else Some(([s[0]] + rest.value.0, rest.value.1))
  }

  function Number(digits: string): nat
    requires AllDigits(digits)
  {
    if digits == [] then 0
    else 10 * Number(digits[..|digits| - 1]) + (digits[|digits| - 1] as nat - '0' as nat)
  }

  /** Hours are an unsigned 64-bit number, with a plus sign or without. */
  function Hours(text: string): Option<nat> {
    var digits := if text != [] && text[0] == '+' then text[1..] else text;
    if digits != [] && AllDigits(digits) && Number(digits) < 0x1_0000_0000_0000_0000 then Some(Number(digits)) else None
  }

  function Nanoseconds(hours: string, minutes: string, secs: string, nanos: string): nat
    requires Hours(hours).Some? && AllDigits(minutes) && AllDigits(secs) && AllDigits(nanos)
  {
    ((Hours(hours).value * 60 + Number(minutes)) * 60 + Number(secs)) * 1_000_000_000 + Number(nanos)
  }

  /** Nanoseconds of `h:mm:ss.nnnnnnnnn`, taken apart at its colons and its dot. */
  function ParsePts(text: string): Option<nat> {
    var hoursAndRest := SplitOnce(text, ':');
    if hoursAndRest.None? || Hours(hoursAndRest.value.0).None? then None
    else
      var minutesAndRest := SplitOnce(hoursAndRest.value.1, ':');
      if minutesAndRest.None? then None
      else
        var (minutes, rest) := minutesAndRest.value;
        var seconds := SplitOnce(rest, '.');
        if seconds.None? || ':' in rest then None
        else
          var (secs, nanos) := seconds.value;
          if && |minutes| == 2 && |secs| == 2 && |nanos| == 9
             && AllDigits(minutes) && AllDigits(secs) && AllDigits(nanos)
          then
            Some(Nanoseconds(hoursAndRest.value.0, minutes, secs, nanos))
          else None
  }

  ghost predicate IsPts(text: string, hours: string, minutes: string, secs: string, nanos: string) {
    && text == hours + ":" + minutes + ":" + secs + "." + nanos
    && Hours(hours).Some?
    && |minutes| == 2 && |secs| == 2 && |nanos| == 9
    && AllDigits(minutes) && AllDigits(secs) && AllDigits(nanos)
  }

  lemma {:induction false} SplitsThere(before: string, separator: char, after: string)
    requires separator !in before
    ensures SplitOnce(before + [separator] + after, separator) == Some((before, after))
  {
    var s := before + [separator] + after;
    if before == [] {
      assert s == [separator] + after;
    } else {
      assert s[1..] == before[1..] + [separator] + after;
      SplitsThere(before[1..], separator, after);
      assert before == [before[0]] + before[1..];
    }
  }

  /** Just the texts of that form are taken, each with the nanoseconds it says. */
  lemma PtsMeans(text: string, hours: string, minutes: string, secs: string, nanos: string)
    requires IsPts(text, hours, minutes, secs, nanos)
    ensures ParsePts(text) == Some(Nanoseconds(hours, minutes, secs, nanos))
  {
    HoursHaveNoColon(hours);
    DigitsHaveNoOther(minutes, ':');
    DigitsHaveNoOther(secs, ':');
    DigitsHaveNoOther(secs, '.');
    DigitsHaveNoOther(nanos, ':');
    PartsOfPts(text, hours, minutes, secs, nanos);
  }

  lemma DigitsHaveNoOther(digits: string, c: char)
    requires AllDigits(digits) && !IsDigit(c)
    ensures c !in digits
  {
  }

  lemma {:induction false} PartsOfPts(text: string, hours: string, minutes: string, secs: string, nanos: string)
    requires text == hours + ":" + minutes + ":" + secs + "." + nanos
    requires ':' !in hours && ':' !in minutes && ':' !in secs && ':' !in nanos && '.' !in secs
    ensures var rest := secs + ['.'] + nanos;
            && SplitOnce(text, ':') == Some((hours, minutes + [':'] + rest))
            && SplitOnce(minutes + [':'] + rest, ':') == Some((minutes, rest))
            && SplitOnce(rest, '.') == Some((secs, nanos))
            && ':' !in rest
  {
    var rest := secs + ['.'] + nanos;
    PutTogether(hours, minutes, secs, nanos, minutes + [':'] + rest, rest);
    SplitsThere(hours, ':', minutes + [':'] + rest);
    SplitsThere(minutes, ':', rest);
    SplitsThere(secs, '.', nanos);
  }

  /** Hours are digits, with a plus sign before them or not, that are worth less than two to the power of 64. */
  lemma HoursMeans(text: string)
    ensures Hours(text).Some? <==>
              exists digits :: AreHours(text, digits) && Number(digits) < 0x1_0000_0000_0000_0000
  {
    var digits := if text != [] && text[0] == '+' then text[1..] else text;
    if Hours(text).Some? {
      assert AreHours(text, digits);
    }
    if other :| AreHours(text, other) && Number(other) < 0x1_0000_0000_0000_0000 {
      assert other == digits;
    }
  }

  predicate AreHours(text: string, digits: string) {
    digits != [] && AllDigits(digits) && (text == digits || text == "+" + digits)
  }

  lemma HoursHaveNoColon(hours: string)
    requires Hours(hours).Some?
    ensures ':' !in hours
  {
  }

  lemma OnlyPtsAreTaken(text: string) returns (hours: string, minutes: string, secs: string, nanos: string)
    requires ParsePts(text).Some?
    ensures IsPts(text, hours, minutes, secs, nanos)
  {
    var afterHours := SplitOnce(text, ':').value;
    var afterMinutes := SplitOnce(afterHours.1, ':').value;
    var seconds := SplitOnce(afterMinutes.1, '.').value;
    hours, minutes, secs, nanos := afterHours.0, afterMinutes.0, seconds.0, seconds.1;
    PutTogether(hours, minutes, secs, nanos, afterHours.1, afterMinutes.1);
  }

  lemma PutTogether(hours: string, minutes: string, secs: string, nanos: string, afterHours: string,
                    afterMinutes: string)
    requires afterHours == minutes + [':'] + afterMinutes && afterMinutes == secs + ['.'] + nanos
    ensures hours + [':'] + afterHours == hours + ":" + minutes + ":" + secs + "." + nanos
  {
  }

  /** The digest of a line, if it is a pts, a blank and a digest. */
  function DigestOf(line: string): Option<string> {
    var parts := SplitOnce(line, ' ');
    if parts.Some? && ParsePts(parts.value.0).Some? && IsHex(parts.value.1) then Some(parts.value.1) else None
  }

  ghost predicate IsPtsText(text: string) {
    exists hours, minutes, secs, nanos :: IsPts(text, hours, minutes, secs, nanos)
  }

  ghost predicate IsLineAt(line: string, pts: string, digest: string) {
    line == pts + " " + digest && IsPtsText(pts) && IsHex(digest)
  }

  ghost predicate IsLine(line: string, digest: string) {
    exists pts :: IsLineAt(line, pts, digest)
  }

  lemma HexMeans(digest: string)
    ensures IsHex(digest) <==> digest != "" && forall i :: 0 <= i < |digest| ==> digest[i] in "0123456789abcdef"
  {
    forall i | 0 <= i < |digest|
      ensures IsDigit(digest[i]) || 'a' <= digest[i] <= 'f' <==> digest[i] in "0123456789abcdef"
    {
      HexDigitMeans(digest[i]);
    }
  }

  lemma HexDigitMeans(c: char)
    ensures IsDigit(c) || 'a' <= c <= 'f' <==> c in "0123456789abcdef"
  {
    var hex := "0123456789abcdef";
    if IsDigit(c) {
      assert hex[c as int - '0' as int] == c;
    } else if 'a' <= c <= 'f' {
      assert hex[10 + (c as int - 'a' as int)] == c;
    }
  }

  /** Just these lines are taken, each with its digest. */
  lemma DigestMeans(line: string, digest: string)
    ensures DigestOf(line) == Some(digest) <==> IsLine(line, digest)
  {
    if DigestOf(line) == Some(digest) {
      var pts := SplitOnce(line, ' ').value.0;
      var hours, minutes, secs, nanos := OnlyPtsAreTaken(pts);
      assert IsLineAt(line, pts, digest);
    }
    if pts :| IsLineAt(line, pts, digest) {
      var hours, minutes, secs, nanos :| IsPts(pts, hours, minutes, secs, nanos);
      PtsMeans(pts, hours, minutes, secs, nanos);
      PtsHasNoBlank(pts, hours, minutes, secs, nanos);
      SplitsThere(pts, ' ', digest);
    }
  }

  lemma PtsHasNoBlank(text: string, hours: string, minutes: string, secs: string, nanos: string)
    requires IsPts(text, hours, minutes, secs, nanos)
    ensures ' ' !in text
  {
    assert ' ' !in hours;
    assert ' ' !in minutes && ' ' !in secs && ' ' !in nanos;
  }

  // ----- one table -----

  /** How lines are read. */
  type Reader = string -> Option<string>

  /** Lines of a table, all digests equally long. */
  ghost predicate IsTable(read: Reader, lines: seq<string>) {
    forall i :: 0 <= i < |lines| ==> IsLineLike(read, lines[i], lines[0])
  }

  predicate IsLineLike(read: Reader, line: string, first: string) {
    read(line).Some? && read(first).Some? && |read(line).value| == |read(first).value|
  }

  predicate IsAt(read: Reader, lines: seq<string>, digest: string, index: nat) {
    index < |lines| && read(lines[index]) == Some(digest)
  }

  ghost predicate Ascending(s: seq<nat>) {
    forall j, k :: 0 <= j < k < |s| ==> s[j] < s[k]
  }

  /** Where the first n lines have this digest. */
  ghost predicate IsIndex(places: seq<nat>, read: Reader, lines: seq<string>, n: nat, digest: string) {
    && Ascending(places)
    && forall i: nat :: i in places <==> i < n && IsAt(read, lines, digest, i)
  }

  function Places(indices: map<string, seq<nat>>, digest: string): seq<nat> {
    if digest in indices then indices[digest] else []
  }

  ghost predicate AreIndices(indices: map<string, seq<nat>>, read: Reader, lines: seq<string>, n: nat) {
    && (forall d :: d in indices ==> indices[d] != [])
    && (forall d :: IsIndex(Places(indices, d), read, lines, n, d))
  }

  ghost predicate IsLineOfLength(line: string, length: nat) {
    exists digest :: |digest| == length && IsLine(line, digest)
  }

  ghost predicate AreLinesOfLength(lines: seq<string>, length: nat) {
    forall i :: 0 <= i < |lines| ==> IsLineOfLength(lines[i], length)
  }

  /** What a table is: lines of that form with digests of one length. */
  lemma TableMeans(lines: seq<string>)
    ensures IsTable(DigestOf, lines) <==> exists length: nat :: AreLinesOfLength(lines, length)
  {
    if lines == [] {
      assert AreLinesOfLength(lines, 0);
    } else if IsTable(DigestOf, lines) {
      assert IsLineLike(DigestOf, lines[0], lines[0]);
      var length := |DigestOf(lines[0]).value|;
      forall i | 0 <= i < |lines|
        ensures IsLineOfLength(lines[i], length)
      {
        assert IsLineLike(DigestOf, lines[i], lines[0]);
        LengthMeans(lines[i], length);
      }
      assert AreLinesOfLength(lines, length);
    } else if length: nat :| AreLinesOfLength(lines, length) {
      forall i | 0 <= i < |lines|
        ensures IsLineLike(DigestOf, lines[i], lines[0])
      {
        LengthMeans(lines[i], length);
        LengthMeans(lines[0], length);
      }
    }
  }

  lemma LengthMeans(line: string, length: nat)
    ensures IsLineOfLength(line, length) <==> DigestOf(line).Some? && |DigestOf(line).value| == length
  {
    if DigestOf(line).Some? {
      DigestMeans(line, DigestOf(line).value);
    }
    if digest :| |digest| == length && IsLine(line, digest) {
      DigestMeans(line, digest);
    }
  }

  /** The table of a file's lines: refused if a line is malformed, if digests differ in length, or without a line. */
  method Parse(lines: seq<string>) returns (table: Option<HashTable>)
    ensures table.Some? <==> lines != [] && IsTable(DigestOf, lines)
    ensures table.Some? ==> IsTableOf(table.value, DigestOf, lines)
  {
    table := ReadTable(DigestOf, lines);
  }

  method ReadTable(read: Reader, lines: seq<string>) returns (table: Option<HashTable>)
    ensures table.Some? <==> lines != [] && IsTable(read, lines)
    ensures table.Some? ==> IsTableOf(table.value, read, lines)
  {
    var indices: map<string, seq<nat>> := map[];
    var digestLen := None;
    for index := 0 to |lines|
      invariant IsTable(read, lines[..index])
      invariant index > 0 ==> read(lines[0]).Some? && digestLen == Some(|read(lines[0]).value|)
      invariant index == 0 ==> digestLen.None?
      invariant AreIndices(indices, read, lines, index)
    {
      var digest := read(lines[index]);
      if digest.None? {
        assert !IsLineLike(read, lines[index], lines[0]);
        return None;
      }
      if digestLen.None? {
        digestLen := Some(|digest.value|);
      }
      if digestLen.value != |digest.value| {
        assert !IsLineLike(read, lines[index], lines[0]);
        return None;
      }
      TableOneMore(read, lines, index);
      IndicesOneMore(indices, read, lines, index);
      indices := indices[digest.value := Places(indices, digest.value) + [index]];
    }
    assert lines[..|lines|] == lines;
    if lines == [] {
      return None;
    }
    table := Some(HashTable(indices, |lines|));
    IndicesAreATable(indices, read, lines);
  }

  /** Every digest at just the frames where the lines have it, in order. */
  ghost predicate IsTableOf(table: HashTable, read: Reader, lines: seq<string>) {
    && table.Valid() && table.frames == |lines|
    && (forall d, i: nat :: table.At(d, i) <==> IsAt(read, lines, d, i))
    && (forall d :: d in table.indices ==> Ascending(table.indices[d]))
  }

  lemma IndicesAreATable(indices: map<string, seq<nat>>, read: Reader, lines: seq<string>)
    requires lines != [] && AreIndices(indices, read, lines, |lines|)
    ensures IsTableOf(HashTable(indices, |lines|), read, lines)
  {
    forall d | d in indices
      ensures indices[d] != [] && Ascending(indices[d]) && forall k :: 0 <= k < |indices[d]| ==> indices[d][k] < |lines|
    {
      assert IsIndex(Places(indices, d), read, lines, |lines|, d);
      assert forall k :: 0 <= k < |indices[d]| ==> indices[d][k] in Places(indices, d);
    }
    forall d, i: nat
      ensures HashTable(indices, |lines|).At(d, i) <==> IsAt(read, lines, d, i)
    {
      assert IsIndex(Places(indices, d), read, lines, |lines|, d);
    }
  }

  lemma TableOneMore(read: Reader, lines: seq<string>, n: nat)
    requires n < |lines| && IsTable(read, lines[..n]) && IsLineLike(read, lines[n], lines[0])
    ensures IsTable(read, lines[..n + 1])
  {
    forall i | 0 <= i < n
      ensures IsLineLike(read, lines[i], lines[0])
    {
      assert lines[..n][i] == lines[i] && lines[..n][0] == lines[0];
    }
  }

  lemma IndicesOneMore(indices: map<string, seq<nat>>, read: Reader, lines: seq<string>, n: nat)
    requires n < |lines| && AreIndices(indices, read, lines, n) && read(lines[n]).Some?
    ensures var digest := read(lines[n]).value;
            AreIndices(indices[digest := Places(indices, digest) + [n]], read, lines, n + 1)
  {
    var digest := read(lines[n]).value;
    var more := indices[digest := Places(indices, digest) + [n]];
    forall d
      ensures IsIndex(Places(more, d), read, lines, n + 1, d)
    {
      IndexOneMore(Places(indices, d), read, lines, n, d);
    }
  }

  lemma IndexOneMore(places: seq<nat>, read: Reader, lines: seq<string>, n: nat, digest: string)
    requires n < |lines| && IsIndex(places, read, lines, n, digest)
    ensures IsIndex(if read(lines[n]) == Some(digest) then places + [n] else places, read, lines, n + 1, digest)
  {
    forall k | 0 <= k < |places|
      ensures places[k] < n
    {
      assert places[k] in places;
    }
    assert n in places + [n] && forall i :: i in places + [n] <==> i in places || i == n;
  }

  // ----- variants -----

  ghost predicate AtInSome(read: Reader, variants: seq<seq<string>>, digest: string, index: nat) {
    exists v :: 0 <= v < |variants| && IsAt(read, variants[v], digest, index)
  }

  ghost predicate AreVariants(read: Reader, variants: seq<seq<string>>, n: nat)
    requires n <= |variants|
  {
    forall v :: 0 <= v < n ==> IsTable(read, variants[v]) && |variants[v]| == |variants[0]|
  }

  /** A frame is found at its index in any of the variants. */
  ghost predicate IsMerged(table: HashTable, read: Reader, variants: seq<seq<string>>) {
    && table.Valid()
    && forall d, i: nat :: table.At(d, i) <==> AtInSome(read, variants, d, i)
  }

  /** A frame matches at its index in any variant; variants of different lengths, and none at all, are refused. */
  method LoadVariants(variants: seq<seq<string>>) returns (merged: Option<HashTable>)
    ensures merged.Some? <==> variants != [] && variants[0] != [] && AreVariants(DigestOf, variants, |variants|)
    ensures merged.Some? ==> IsMerged(merged.value, DigestOf, variants) && merged.value.frames == |variants[0]|
  {
    merged := ReadVariants(DigestOf, variants);
  }

  method ReadVariants(read: Reader, variants: seq<seq<string>>) returns (merged: Option<HashTable>)
    ensures merged.Some? <==> variants != [] && variants[0] != [] && AreVariants(read, variants, |variants|)
    ensures merged.Some? ==> IsMerged(merged.value, read, variants) && merged.value.frames == |variants[0]|
  {
    if variants == [] {
      return None;
    }
    merged := ReadTable(read, variants[0]);
    if merged.None? {
      return;
    }
    var all := merged.value;
    OneIsMerged(all, read, variants);
    for v := 1 to |variants|
      invariant variants[0] != [] && AreVariants(read, variants, v)
      invariant all.frames == |variants[0]| && IsMerged(all, read, variants[..v])
    {
      var table := ReadTable(read, variants[v]);
      if table.None? || table.value.frames != all.frames {
        OneIsNoVariant(read, variants, v);
        return None;
      }
      MergedOneMore(all, table.value, read, variants, v);
      all := AddVariant(all, table.value);
    }
    assert variants[..|variants|] == variants;
    merged := Some(all);
  }

  lemma OneIsNoVariant(read: Reader, variants: seq<seq<string>>, v: nat)
    requires v < |variants| && (!IsTable(read, variants[v]) || |variants[v]| != |variants[0]|)
    ensures !AreVariants(read, variants, |variants|)
  {
  }

  lemma OneIsMerged(table: HashTable, read: Reader, variants: seq<seq<string>>)
    requires variants != [] && IsTableOf(table, read, variants[0])
    ensures IsMerged(table, read, variants[..1])
  {
    forall d, i: nat
      ensures AtInSome(read, variants[..1], d, i) <==> IsAt(read, variants[0], d, i)
    {
      assert variants[..1][0] == variants[0];
    }
  }

  lemma MergedOneMore(all: HashTable, table: HashTable, read: Reader, variants: seq<seq<string>>, v: nat)
    requires v < |variants| && IsMerged(all, read, variants[..v]) && IsTableOf(table, read, variants[v])
    requires all.frames == table.frames
    ensures AddVariant(all, table).frames == all.frames
    ensures IsMerged(AddVariant(all, table), read, variants[..v + 1])
  {
    AddedIsInEither(all, table);
    forall d, i: nat
      ensures AddVariant(all, table).At(d, i) <==> AtInSome(read, variants[..v + 1], d, i)
    {
      AtInOneMore(read, variants, v, d, i);
    }
  }

  lemma AtInOneMore(read: Reader, variants: seq<seq<string>>, v: nat, digest: string, index: nat)
    requires v < |variants|
    ensures AtInSome(read, variants[..v + 1], digest, index) <==>
            AtInSome(read, variants[..v], digest, index) || IsAt(read, variants[v], digest, index)
  {
    if AtInSome(read, variants[..v], digest, index) {
      var w :| 0 <= w < v && IsAt(read, variants[..v][w], digest, index);
      assert IsAt(read, variants[..v + 1][w], digest, index);
    }
    if IsAt(read, variants[v], digest, index) {
      assert IsAt(read, variants[..v + 1][v], digest, index);
    }
  }

  function AddVariant(all: HashTable, table: HashTable): HashTable {
    HashTable(map d | d in all.indices.Keys + table.indices.Keys :: Places(all.indices, d) + Places(table.indices, d),
              all.frames)
  }

  /** A digest is then wherever either table has it. */
  lemma AddedIsInEither(all: HashTable, table: HashTable)
    requires all.Valid() && table.Valid() && all.frames == table.frames
    ensures AddVariant(all, table).Valid()
    ensures forall d, i: nat :: AddVariant(all, table).At(d, i) <==> all.At(d, i) || table.At(d, i)
  {
  }
}
