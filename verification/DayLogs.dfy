/** The day logs, crates/calliope-cli/src/canary/record.rs. Appending never rewrites; reading walks the days in order,
    line by line. */
module DayLogs {
  import opened Prelude
  import opened LogNames

  // ----- one file -----

  /** How far an append got: the whole line, all of it but the newline, only a part, or nothing. A canary killed
      mid-write leaves the middle ones. A part that ends inside a character is not valid text. */
  datatype Outcome = Written | NoNewline | Torn(insideCharacter: bool) | Nothing

  /** A line that ends: it parses, it does not, or it is not even text. */
  datatype Line<T> = Parsed(record: T) | Unparsed | NotText

  /** What follows the last newline of a file. */
  datatype Tail<T> = Clean | Fragment | Garbled | Unended(record: T)

  datatype DayFile<T> = DayFile(lines: seq<Line<T>>, tail: Tail<T>)

  function EmptyFile<T>(): DayFile<T> {
    DayFile([], Clean)
  }

  /** A record after an unfinished line shares that line. The line does not parse, and if the part before was not text
      the line is not. */
  function AppendTo<T>(file: DayFile<T>, record: T, outcome: Outcome): DayFile<T> {
    match outcome
    case Written =>
      var line := match file.tail { case Clean => Parsed(record) case Garbled => NotText case _ => Unparsed };
      DayFile(file.lines + [line], Clean)
    case NoNewline =>
      file.(tail := match file.tail { case Clean => Unended(record) case Garbled => Garbled case _ => Fragment })
    case Torn(insideCharacter) =>
      file.(tail := if insideCharacter || file.tail.Garbled? then Garbled else Fragment)
    case Nothing => file
  }

  // ----- reading a file -----

  /** What the lines give: nothing at all if one is not text, else the records of those that parse. */
  function LinesRead<T>(lines: seq<Line<T>>): Option<seq<T>> {
    if lines == [] then Some([])
    else
      var before, line := LinesRead(lines[..|lines| - 1]), lines[|lines| - 1];
      if before.None? || line.NotText? then None
      else if line.Parsed? then Some(before.value + [line.record]) else before
  }

  /** A last line without its newline counts as a line. */
  function AllLines<T>(file: DayFile<T>): seq<Line<T>> {
    file.lines
    + match file.tail {
        case Clean => []
        case Fragment => [Unparsed]
        case Garbled => [NotText]
        case Unended(r) => [Parsed(r)]
      }
  }

  function FileRead<T>(file: DayFile<T>): Option<seq<T>> {
    LinesRead(AllLines(file))
  }

  /** Pushes the records of a file's lines, up to a line that is not text. */
  method ReadLines<T>(file: DayFile<T>, before: seq<T>) returns (records: Option<seq<T>>)
    ensures records == var read := FileRead(file); if read.Some? then Some(before + read.value) else None
  {
    var lines := AllLines(file);
    var pushed := before;
    assert LinesRead(lines[..0]) == Some([]) && before + [] == before;
    for i := 0 to |lines|
      invariant LinesRead(lines[..i]).Some? && pushed == before + LinesRead(lines[..i]).value
    {
      assert lines[..i + 1][..i] == lines[..i];
      match lines[i]
      case NotText =>
        NotTextStays(lines, i);
        return None;
      case Parsed(record) => pushed := pushed + [record];
      case Unparsed =>
    }
    assert lines[..|lines|] == lines;
    records := Some(pushed);
  }

  lemma {:induction false} NotTextStays<T>(lines: seq<Line<T>>, i: nat)
    requires i < |lines| && lines[i].NotText?
    ensures LinesRead(lines).None?
  {
    if i < |lines| - 1 {
      NotTextStays(lines[..|lines| - 1], i);
    }
  }

  // ----- what a file keeps -----

  /** One append: the kind of record, its time, the record and how far the write got. */
  datatype Entry<T> = Entry(prefix: string, ts: nat, record: T, outcome: Outcome)

  function FileAfter<T>(entries: seq<Entry<T>>): DayFile<T> {
    if entries == [] then EmptyFile()
    else
      var last := entries[|entries| - 1];
      AppendTo(FileAfter(entries[..|entries| - 1]), last.record, last.outcome)
  }

  /** The last append that wrote anything finished its line. */
  predicate EndsClean<T>(entries: seq<Entry<T>>) {
    entries == [] ||
    var last := entries[|entries| - 1];
    if last.outcome == Nothing then EndsClean(entries[..|entries| - 1]) else last.outcome == Written
  }

  predicate AllOrNothing<T>(entries: seq<Entry<T>>) {
    forall k :: 0 <= k < |entries| ==> entries[k].outcome == Written || entries[k].outcome == Nothing
  }

  lemma {:induction false} AllOrNothingEndsClean<T>(entries: seq<Entry<T>>)
    requires AllOrNothing(entries)
    ensures EndsClean(entries)
  {
    if entries != [] {
      AllOrNothingEndsClean(entries[..|entries| - 1]);
    }
  }

  /** The records whose line was written whole after a finished line. */
  function WholeLines<T>(entries: seq<Entry<T>>): seq<T> {
    if entries == [] then []
    else
      var front, last := entries[..|entries| - 1], entries[|entries| - 1];
      WholeLines(front) + if last.outcome == Written && EndsClean(front) then [last.record] else []
  }

  /** Entry k is the last that wrote anything, after a finished line, and wrote all but its newline. */
  ghost predicate LacksOnlyItsNewline<T>(entries: seq<Entry<T>>, k: int) {
    && 0 <= k < |entries|
    && entries[k].outcome == NoNewline
    && EndsClean(entries[..k])
    && forall j :: k < j < |entries| ==> entries[j].outcome == Nothing
  }

  /** That entry's record, if there is such an entry. */
  function LastUnended<T>(entries: seq<Entry<T>>): seq<T> {
    if entries == [] then []
    else
      var front, last := entries[..|entries| - 1], entries[|entries| - 1];
      match last.outcome
      case Nothing => LastUnended(front)
      case NoNewline => if EndsClean(front) then [last.record] else []
      case _ => []
  }

  lemma {:induction false} LastUnendedMeans<T>(entries: seq<Entry<T>>, k: int)
    ensures LacksOnlyItsNewline(entries, k) ==> LastUnended(entries) == [entries[k].record]
    ensures LastUnended(entries) != [] ==> exists i :: LacksOnlyItsNewline(entries, i)
  {
    if entries != [] {
      var n := |entries| - 1;
      var front := entries[..n];
      LastUnendedMeans(front, k);
      if LacksOnlyItsNewline(entries, k) && k < n {
        assert entries[..k] == front[..k];
        assert LacksOnlyItsNewline(front, k);
      }
      if LastUnended(entries) != [] {
        if entries[n].outcome == NoNewline {
          assert LacksOnlyItsNewline(entries, n);
        } else {
          var i :| LacksOnlyItsNewline(front, i);
          assert entries[..i] == front[..i];
          assert LacksOnlyItsNewline(entries, i);
        }
      }
    }
  }

  /** An append was cut inside a character. */
  predicate IsGarbled<T>(entries: seq<Entry<T>>) {
    exists k :: 0 <= k < |entries| && entries[k].outcome == Torn(true)
  }

  lemma GarbledOneMore<T>(entries: seq<Entry<T>>)
    requires entries != []
    ensures IsGarbled(entries)
            <==> IsGarbled(entries[..|entries| - 1]) || entries[|entries| - 1].outcome == Torn(true)
  {
    var front := entries[..|entries| - 1];
    if IsGarbled(front) {
      var k :| 0 <= k < |front| && front[k].outcome == Torn(true);
      assert entries[k].outcome == Torn(true);
    }
  }

  predicate HasNotText<T>(lines: seq<Line<T>>) {
    exists k :: 0 <= k < |lines| && lines[k].NotText?
  }

  lemma {:induction false} ReadsUnlessNotText<T>(lines: seq<Line<T>>)
    ensures LinesRead(lines).None? <==> HasNotText(lines)
  {
    if lines != [] {
      var front := lines[..|lines| - 1];
      ReadsUnlessNotText(front);
      if HasNotText(front) {
        var k :| 0 <= k < |front| && front[k].NotText?;
        assert lines[k].NotText?;
      }
    }
  }

  lemma NotTextOneMore<T>(lines: seq<Line<T>>, line: Line<T>)
    ensures HasNotText(lines + [line]) <==> HasNotText(lines) || line.NotText?
  {
    var more := lines + [line];
    assert more[|lines|] == line;
    if HasNotText(lines) {
      var k :| 0 <= k < |lines| && lines[k].NotText?;
      assert more[k].NotText?;
    }
  }

  lemma {:induction false} LinesReadOneMore<T>(lines: seq<Line<T>>, line: Line<T>)
    ensures LinesRead(lines + [line])
            == if LinesRead(lines).None? || line.NotText? then None
               else if line.Parsed? then Some(LinesRead(lines).value + [line.record]) else LinesRead(lines)
  {
    assert (lines + [line])[..|lines|] == lines;
  }

  /** What each append leaves in the file. */
  ghost predicate Keeps<T>(file: DayFile<T>, entries: seq<Entry<T>>) {
    && (HasNotText(file.lines) || file.tail.Garbled? <==> IsGarbled(entries))
    && (!HasNotText(file.lines) ==> LinesRead(file.lines) == Some(WholeLines(entries)))
    && (file.tail.Clean? <==> EndsClean(entries))
    && LastUnended(entries) == (if file.tail.Unended? then [file.tail.record] else [])
  }

  lemma KeepsOneMore<T>(file: DayFile<T>, entries: seq<Entry<T>>)
    requires entries != [] && Keeps(file, entries[..|entries| - 1])
    ensures var last := entries[|entries| - 1]; Keeps(AppendTo(file, last.record, last.outcome), entries)
  {
    var last := entries[|entries| - 1];
    GarbledOneMore(entries);
    assert WholeLines(entries[..|entries| - 1]) + [] == WholeLines(entries[..|entries| - 1]);
    var after := AppendTo(file, last.record, last.outcome);
    if last.outcome.Written? {
      var line := after.lines[|file.lines|];
      NotTextOneMore(file.lines, line);
      LinesReadOneMore(file.lines, line);
    }
  }

  lemma {:induction false} FileKeeps<T>(entries: seq<Entry<T>>)
    ensures Keeps(FileAfter(entries), entries)
  {
    if entries != [] {
      FileKeeps(entries[..|entries| - 1]);
      KeepsOneMore(FileAfter(entries[..|entries| - 1]), entries);
    }
  }

  /** A file can be read exactly when no append to it was cut inside a character. Then it gives the records whose line
      was finished and started after a finished one, and the last one if it lacks just its newline. */
  lemma {:induction false} FileKeepsWholeLines<T>(entries: seq<Entry<T>>)
    ensures FileRead(FileAfter(entries))
            == if IsGarbled(entries) then None else Some(WholeLines(entries) + LastUnended(entries))
    ensures FileAfter(entries).tail.Clean? <==> EndsClean(entries)
    ensures forall k :: LacksOnlyItsNewline(entries, k) ==> FileAfter(entries).tail == Unended(entries[k].record)
    ensures FileAfter(entries).tail.Unended? ==> exists k :: LacksOnlyItsNewline(entries, k)
  {
    var file := FileAfter(entries);
    FileKeeps(entries);
    TailIsALine(file);
    assert WholeLines(entries) + [] == WholeLines(entries);
    ReadsUnlessNotText(file.lines);
    forall k
      ensures LacksOnlyItsNewline(entries, k) ==> LastUnended(entries) == [entries[k].record]
    {
      LastUnendedMeans(entries, k);
    }
    LastUnendedMeans(entries, 0);
  }

  lemma TailIsALine<T>(file: DayFile<T>)
    ensures FileRead(file)
            == match file.tail {
                 case Clean => LinesRead(file.lines)
                 case Fragment => LinesRead(file.lines)
                 case Garbled => None
                 case Unended(r) =>
                   if LinesRead(file.lines).None? then None else Some(LinesRead(file.lines).value + [r])
               }
  {
    match file.tail
    case Clean => assert AllLines(file) == file.lines;
    case Fragment => LinesReadOneMore(file.lines, Unparsed);
    case Garbled => LinesReadOneMore(file.lines, NotText);
    case Unended(r) => LinesReadOneMore(file.lines, Parsed(r));
  }

  // ----- which record a file gives back -----

  /** Entry k can be read: its line starts after a finished one and is finished, or nothing was written after it, and no
      append to the file was cut inside a character. */
  ghost predicate IsReadable<T>(entries: seq<Entry<T>>, k: int) {
    && 0 <= k < |entries|
    && !IsGarbled(entries)
    && ((entries[k].outcome == Written && EndsClean(entries[..k])) || LacksOnlyItsNewline(entries, k))
  }

  ghost predicate HasWhole<T>(entries: seq<Entry<T>>, record: T) {
    exists k :: 0 <= k < |entries| && IsWhole(entries, k) && entries[k].record == record
  }

  lemma {:induction false} WholeLinesMeans<T>(entries: seq<Entry<T>>, record: T)
    ensures record in WholeLines(entries) <==> HasWhole(entries, record)
  {
    if entries != [] {
      WholeLinesMeans(entries[..|entries| - 1], record);
      WholeOneMore(entries, record);
    }
  }

  lemma WholeOneMore<T>(entries: seq<Entry<T>>, record: T)
    requires entries != []
    ensures var n := |entries| - 1;
            HasWhole(entries, record)
            <==> HasWhole(entries[..n], record) || (IsWhole(entries, n) && entries[n].record == record)
  {
    var n := |entries| - 1;
    var front := entries[..n];
    forall k | 0 <= k < n
      ensures IsWhole(front, k) == IsWhole(entries, k) && front[k] == entries[k]
    {
      assert entries[..k] == front[..k];
    }
    if HasWhole(front, record) {
      var k :| 0 <= k < n && IsWhole(front, k) && front[k].record == record;
      assert IsWhole(entries, k);
    }
  }

  predicate IsWhole<T>(entries: seq<Entry<T>>, k: nat)
    requires k < |entries|
  {
    entries[k].outcome == Written && EndsClean(entries[..k])
  }

  /** A file gives a record back if and only if one of its appends can be read. */
  lemma {:induction false} GivesBackIff<T>(entries: seq<Entry<T>>, record: T)
    ensures var read := FileRead(FileAfter(entries));
            read.Some? && record in read.value
            <==> exists k :: IsReadable(entries, k) && entries[k].record == record
  {
    FileKeepsWholeLines(entries);
    WholeLinesMeans(entries, record);
    if HasWhole(entries, record) {
      var k :| 0 <= k < |entries| && IsWhole(entries, k) && entries[k].record == record;
      assert !IsGarbled(entries) ==> IsReadable(entries, k);
    }
    if record in LastUnended(entries) {
      LastUnendedMeans(entries, 0);
      var k :| LacksOnlyItsNewline(entries, k);
      LastUnendedMeans(entries, k);
      assert !IsGarbled(entries) ==> IsReadable(entries, k);
    }
    if k :| IsReadable(entries, k) && entries[k].record == record {
      LastUnendedMeans(entries, k);
      assert entries[k].outcome == Written ==> IsWhole(entries, k);
    }
  }

  // ----- when a file reads back what was appended -----

  /** The whole record got to the disk. */
  predicate Arrived<T>(e: Entry<T>) {
    e.outcome == Written || e.outcome == NoNewline
  }

  function ArrivedRecords<T>(entries: seq<Entry<T>>): seq<T> {
    if entries == [] then []
    else
      var front, last := entries[..|entries| - 1], entries[|entries| - 1];
      ArrivedRecords(front) + if Arrived(last) then [last.record] else []
  }

  /** Nothing shares a line: each record starts a line, and nothing was written after one without its newline. */
  ghost predicate KeepsApart<T>(entries: seq<Entry<T>>) {
    && (forall k :: 0 <= k < |entries| && Arrived(entries[k]) ==> EndsClean(entries[..k]))
    && (forall k, j :: 0 <= k < j < |entries| && entries[k].outcome == NoNewline ==> entries[j].outcome == Nothing)
  }

  lemma FrontOfApart<T>(entries: seq<Entry<T>>)
    requires entries != []
    ensures var front, last := entries[..|entries| - 1], entries[|entries| - 1];
            KeepsApart(entries) <==>
            && KeepsApart(front)
            && (Arrived(last) ==> EndsClean(front))
            && (last.outcome == Nothing || AllEnded(front))
  {
    var n := |entries| - 1;
    var front := entries[..n];
    forall k | 0 <= k < n
      ensures entries[..k] == front[..k] && entries[k] == front[k]
    {
    }
    assert entries[..n] == front;
  }

  /** What is read against what arrived: never more, and all of it exactly when nothing shares a line. */
  ghost predicate IsReadBack<T>(entries: seq<Entry<T>>) {
    && |WholeLines(entries)| + |LastUnended(entries)| <= |ArrivedRecords(entries)|
    && (|WholeLines(entries)| + |LastUnended(entries)| == |ArrivedRecords(entries)| <==> KeepsApart(entries))
    && (KeepsApart(entries) ==> WholeLines(entries) + LastUnended(entries) == ArrivedRecords(entries))
    && (LastUnended(entries) != [] ==> !EndsClean(entries))
    && (KeepsApart(entries) ==> (LastUnended(entries) == [] <==> AllEnded(entries)))
  }

  predicate AllEnded<T>(entries: seq<Entry<T>>) {
    forall k :: 0 <= k < |entries| ==> entries[k].outcome != NoNewline
  }

  lemma EndedOneMore<T>(entries: seq<Entry<T>>)
    requires entries != []
    ensures AllEnded(entries)
            <==> AllEnded(entries[..|entries| - 1]) && entries[|entries| - 1].outcome != NoNewline
  {
    var n := |entries| - 1;
    assert forall k :: 0 <= k < n ==> entries[..n][k] == entries[k];
  }

  lemma ReadBackOneMore<T>(entries: seq<Entry<T>>)
    requires entries != [] && IsReadBack(entries[..|entries| - 1])
    ensures IsReadBack(entries)
  {
    var front, last := entries[..|entries| - 1], entries[|entries| - 1];
    FrontOfApart(entries);
    EndedOneMore(entries);
    assert WholeLines(front) + [] == WholeLines(front);
  }

  lemma {:induction false} ReadsAtMostWhatArrived<T>(entries: seq<Entry<T>>)
    ensures IsReadBack(entries)
  {
    if entries != [] {
      ReadsAtMostWhatArrived(entries[..|entries| - 1]);
      ReadBackOneMore(entries);
    }
  }

  /** A file reads back exactly what arrived if and only if no append was cut inside a character and nothing shares a
      line. */
  lemma {:induction false} FileReadsBackIff<T>(entries: seq<Entry<T>>)
    ensures FileRead(FileAfter(entries)) == Some(ArrivedRecords(entries)) <==> !IsGarbled(entries) && KeepsApart(entries)
  {
    FileKeepsWholeLines(entries);
    ReadsAtMostWhatArrived(entries);
  }

  // ----- the log directory -----

  type Files<T> = map<string, DayFile<T>>

  function FileNamed<T>(files: Files<T>, name: string): DayFile<T> {
    if name in files then files[name] else EmptyFile()
  }

  /** What a day's file gives. One that is not there gives no record, and one that the disk does not give back nothing. */
  function DayRead<T>(files: Files<T>, naming: Naming, disk: string -> bool, prefix: string, day: nat): Option<seq<T>> {
    var name := naming(prefix, day);
    if name !in files then Some([]) else if disk(name) then FileRead(files[name]) else None
  }

  function Both<T>(before: Option<seq<T>>, more: Option<seq<T>>): Option<seq<T>> {
    if before.Some? && more.Some? then Some(before.value + more.value) else None
  }

  /** One day after the other; a day that cannot be read spoils the range. */
  function RangeRead<T>(read: nat -> Option<seq<T>>, first: nat, count: nat): Option<seq<T>> {
    if count == 0 then Some([]) else Both(RangeRead(read, first, count - 1), read(first + count - 1))
  }

  function Reader<T>(files: Files<T>, naming: Naming, disk: string -> bool, prefix: string): nat -> Option<seq<T>> {
    (day: nat) => DayRead(files, naming, disk, prefix, day)
  }

  function DaysRead<T>(files: Files<T>, naming: Naming, disk: string -> bool, prefix: string, first: nat,
                       count: nat): Option<seq<T>> {
    RangeRead(Reader(files, naming, disk, prefix), first, count)
  }

  class LogDir<T> {
    const naming: Naming
    var files: Files<T>

    constructor ()
      ensures files == map[] && naming == ByDate()
    {
      files, naming := map[], ByDate();
    }

    /** Appends a line to the file of the record's day; `outcome` is how far the write got. */
    method Append(prefix: string, ts: nat, record: T, outcome: Outcome)
      modifies this
      ensures var path := naming(prefix, ts / SECS_PER_DAY);
              files == old(files)[path := AppendTo(FileNamed(old(files), path), record, outcome)]
    {
      var path := naming(prefix, ts / SECS_PER_DAY);
      var file := if path in files then files[path] else EmptyFile();
      files := files[path := AppendTo(file, record, outcome)];
    }

    /** Reads the files of all days from that of `since` to that of `now`. `disk` says which files can be opened and
        read. */
    method ReadDays(prefix: string, since: nat, now: nat, disk: string -> bool) returns (records: Option<seq<T>>)
      ensures records == DaysRead(files, naming, disk, prefix, since / SECS_PER_DAY, DayCount(since, now))
    {
      records := ReadFiles(prefix, since / SECS_PER_DAY, now / SECS_PER_DAY, disk);
    }

    method ReadFiles(prefix: string, first: nat, last: nat, disk: string -> bool) returns (records: Option<seq<T>>)
      ensures records == DaysRead(files, naming, disk, prefix, first, DaysFrom(first, last))
    {
      var pushed: seq<T> := [];
      var day := first;
      while day <= last
        invariant first <= day && day - first <= DaysFrom(first, last)
        invariant DaysRead(files, naming, disk, prefix, first, day - first) == Some(pushed)
        decreases last + 1 - day
      {
        var path := naming(prefix, day);
        if path in files {
          var read := None;
          if disk(path) {
            read := ReadLines(files[path], pushed);
          }
          if read.None? {
            OneBadDay(Reader(files, naming, disk, prefix), first, DaysFrom(first, last), day - first);
            return None;
          }
          pushed := read.value;
        } else {
          assert pushed + [] == pushed;
        }
        day := day + 1;
      }
      records := Some(pushed);
    }
  }

  lemma {:induction false} OneBadDay<T>(read: nat -> Option<seq<T>>, first: nat, count: nat, k: nat)
    requires k < count && read(first + k).None?
    ensures RangeRead(read, first, count).None?
    decreases count
  {
    if k < count - 1 {
      OneBadDay(read, first, count - 1, k);
    }
  }

  /** A range can be read if and only if each day can. */
  lemma {:induction false} RangeIsReadIff<T>(read: nat -> Option<seq<T>>, first: nat, count: nat)
    ensures RangeRead(read, first, count).Some? <==> forall day: nat :: first <= day < first + count ==> read(day).Some?
    decreases count
  {
    if count > 0 {
      RangeIsReadIff(read, first, count - 1);
    }
  }

  function InRange<T>(arrived: nat -> seq<T>, first: nat, count: nat): seq<T> {
    if count == 0 then [] else InRange(arrived, first, count - 1) + arrived(first + count - 1)
  }

  /** If no day gives more than arrived on it, a range gives all that arrived if and only if each day does. */
  lemma {:induction false} RangeReadsBackIff<T>(read: nat -> Option<seq<T>>, arrived: nat -> seq<T>, first: nat,
                                                count: nat)
    requires forall day: nat :: first <= day < first + count && read(day).Some? ==> |read(day).value| <= |arrived(day)|
    ensures var all, given := InRange(arrived, first, count), RangeRead(read, first, count);
            && (given == Some(all)
                <==> forall day: nat :: first <= day < first + count ==> read(day) == Some(arrived(day)))
            && (given.Some? ==> |given.value| <= |all|)
    decreases count
  {
    if count > 0 {
      RangeReadsBackIff(read, arrived, first, count - 1);
      ConcatenationsAgree(RangeRead(read, first, count - 1), read(first + count - 1),
                          InRange(arrived, first, count - 1), arrived(first + count - 1));
    }
  }

  lemma ConcatenationsAgree<T>(before: Option<seq<T>>, more: Option<seq<T>>, a: seq<T>, b: seq<T>)
    requires before.Some? ==> |before.value| <= |a|
    requires more.Some? ==> |more.value| <= |b|
    ensures Both(before, more) == Some(a + b) <==> before == Some(a) && more == Some(b)
  {
    if before.Some? && more.Some? && before.value + more.value == a + b {
      assert |before.value| == |a|;
      assert before.value == (before.value + more.value)[..|a|] && a == (a + b)[..|a|];
      assert more.value == (before.value + more.value)[|a|..] && b == (a + b)[|a|..];
    }
  }

  /** The days from that of `since` to that of `now`. */
  function DayCount(since: nat, now: nat): nat {
    DaysFrom(since / SECS_PER_DAY, now / SECS_PER_DAY)
  }

  function DaysFrom(first: nat, last: nat): nat {
    if first <= last then last - first + 1 else 0
  }

  // ----- what a history of appends leaves to read -----

  /** The days that are read are those of all times from `since` to `now`. */
  lemma DaysBetween(since: nat, now: nat, ts: nat)
    requires since <= ts <= now
    ensures since / SECS_PER_DAY <= ts / SECS_PER_DAY < since / SECS_PER_DAY + DayCount(since, now)
    ensures now / SECS_PER_DAY == since / SECS_PER_DAY + DayCount(since, now) - 1
  {
    assert since / SECS_PER_DAY <= ts / SECS_PER_DAY <= now / SECS_PER_DAY;
  }

  lemma {:induction false} InRangeHas<T>(arrived: nat -> seq<T>, first: nat, count: nat, day: nat, record: T)
    requires first <= day < first + count && record in arrived(day)
    ensures record in InRange(arrived, first, count)
  {
    if day < first + count - 1 {
      InRangeHas(arrived, first, count - 1, day, record);
    }
  }

  function FilesAfter<T>(naming: Naming, history: seq<Entry<T>>): Files<T> {
    if history == [] then map[]
    else
      var files, last := FilesAfter(naming, history[..|history| - 1]), history[|history| - 1];
      var name := naming(last.prefix, last.ts / SECS_PER_DAY);
      files[name := AppendTo(FileNamed(files, name), last.record, last.outcome)]
  }

  /** The appends of one kind on one day, in order. */
  function OfDay<T>(history: seq<Entry<T>>, prefix: string, day: nat): seq<Entry<T>> {
    if history == [] then []
    else
      var last := history[|history| - 1];
      OfDay(history[..|history| - 1], prefix, day)
      + if last.prefix == prefix && last.ts / SECS_PER_DAY == day then [last] else []
  }

  lemma {:induction false} OfDayHas<T>(history: seq<Entry<T>>, prefix: string, day: nat, e: Entry<T>)
    ensures e in OfDay(history, prefix, day) <==> e in history && e.prefix == prefix && e.ts / SECS_PER_DAY == day
  {
    if history != [] {
      var front, last := history[..|history| - 1], history[|history| - 1];
      OfDayHas(front, prefix, day, e);
      assert history == front + [last];
    }
  }

  ghost predicate ArePrefixes<T>(history: seq<Entry<T>>) {
    forall k :: 0 <= k < |history| ==> IsPrefix(history[k].prefix)
  }

  /** A day's file holds the appends of that kind and day, and nothing else. */
  lemma {:induction false} FileIsOfDay<T>(naming: Naming, history: seq<Entry<T>>, prefix: string, day: nat)
    requires OneFileEach(naming) && IsPrefix(prefix) && ArePrefixes(history)
    ensures FileNamed(FilesAfter(naming, history), naming(prefix, day)) == FileAfter(OfDay(history, prefix, day))
  {
    if history != [] {
      var front, last := history[..|history| - 1], history[|history| - 1];
      FileIsOfDay(naming, front, prefix, day);
      if last.prefix == prefix && last.ts / SECS_PER_DAY == day {
        var entries := OfDay(history, prefix, day);
        assert entries[..|entries| - 1] == OfDay(front, prefix, day);
      } else {
        assert OfDay(history, prefix, day) == OfDay(front, prefix, day);
      }
    }
  }

  /** The disk gives back every file. */
  ghost predicate GivesAll(disk: string -> bool) {
    forall name :: disk(name)
  }

  lemma {:induction false} DayIsRead<T>(naming: Naming, disk: string -> bool, history: seq<Entry<T>>, prefix: string,
                                        day: nat)
    requires OneFileEach(naming) && IsPrefix(prefix) && ArePrefixes(history) && GivesAll(disk)
    ensures DayRead(FilesAfter(naming, history), naming, disk, prefix, day) == FileRead(FileAfter(OfDay(history, prefix, day)))
  {
    FileIsOfDay(naming, history, prefix, day);
    assert FileRead(EmptyFile<T>()) == Some([]);
  }

  /** Of the `count` days from `first` on, no file was appended to with a cut inside a character. */
  ghost predicate NoneIsGarbled<T>(history: seq<Entry<T>>, prefix: string, first: nat, count: nat) {
    forall day: nat :: first <= day < first + count ==> !IsGarbled(OfDay(history, prefix, day))
  }

  /** A range of days can be read if and only if no append to one of its files was cut inside a character. */
  lemma {:induction false} ReadsIffText<T>(naming: Naming, disk: string -> bool, history: seq<Entry<T>>,
                                           prefix: string, first: nat, count: nat)
    requires OneFileEach(naming) && IsPrefix(prefix) && ArePrefixes(history) && GivesAll(disk)
    ensures DaysRead(FilesAfter(naming, history), naming, disk, prefix, first, count).Some?
            <==> NoneIsGarbled(history, prefix, first, count)
  {
    var read := Reader(FilesAfter(naming, history), naming, disk, prefix);
    forall day: nat
      ensures read(day).Some? <==> !IsGarbled(OfDay(history, prefix, day))
    {
      DayReadsBack(naming, disk, history, prefix, day);
    }
    RangeIsReadIff(read, first, count);
  }

  function Arrivals<T>(history: seq<Entry<T>>, prefix: string): nat -> seq<T> {
    (day: nat) => ArrivedRecords(OfDay(history, prefix, day))
  }

  /** The records of one kind that arrived on `count` days from `first` on: day by day, each day in append order. */
  function Appended<T>(history: seq<Entry<T>>, prefix: string, first: nat, count: nat): seq<T> {
    InRange(Arrivals(history, prefix), first, count)
  }

  ghost predicate AllKeepApart<T>(history: seq<Entry<T>>, prefix: string, first: nat, count: nat) {
    forall day: nat :: first <= day < first + count ==> KeepsApart(OfDay(history, prefix, day))
  }

  /** What a day reads, against what arrived on it. */
  lemma {:induction false} DayReadsBack<T>(naming: Naming, disk: string -> bool, history: seq<Entry<T>>,
                                           prefix: string, day: nat)
    requires OneFileEach(naming) && IsPrefix(prefix) && ArePrefixes(history) && GivesAll(disk)
    ensures var entries := OfDay(history, prefix, day);
            var read := DayRead(FilesAfter(naming, history), naming, disk, prefix, day);
            && (read == Some(ArrivedRecords(entries)) <==> !IsGarbled(entries) && KeepsApart(entries))
            && (read.Some? <==> !IsGarbled(entries))
            && (read.Some? ==> |read.value| <= |ArrivedRecords(entries)|)
  {
    DayIsRead(naming, disk, history, prefix, day);
    FileReadsBackIff(OfDay(history, prefix, day));
    FileKeepsWholeLines(OfDay(history, prefix, day));
    ReadsAtMostWhatArrived(OfDay(history, prefix, day));
  }

  /** A range of days gives at most what arrived, and all of it, in order, if and only if in none of its files an append
      was cut inside a character or two records share a line. */
  lemma {:induction false} ReadsWhatWasAppended<T>(naming: Naming, disk: string -> bool, history: seq<Entry<T>>,
                                                   prefix: string, first: nat, count: nat)
    requires OneFileEach(naming) && IsPrefix(prefix) && ArePrefixes(history) && GivesAll(disk)
    ensures var read, arrived := DaysRead(FilesAfter(naming, history), naming, disk, prefix, first, count),
                                 Appended(history, prefix, first, count);
            && (read == Some(arrived)
                <==> NoneIsGarbled(history, prefix, first, count) && AllKeepApart(history, prefix, first, count))
            && (read.Some? ==> |read.value| <= |arrived|)
  {
    var read, arrived := Reader(FilesAfter(naming, history), naming, disk, prefix), Arrivals(history, prefix);
    forall day: nat
      ensures read(day) == Some(arrived(day))
              <==> !IsGarbled(OfDay(history, prefix, day)) && KeepsApart(OfDay(history, prefix, day))
      ensures read(day).Some? ==> |read(day).value| <= |arrived(day)|
    {
      DayReadsBack(naming, disk, history, prefix, day);
    }
    RangeReadsBackIff(read, arrived, first, count);
  }

  lemma {:induction false} ArrivedHas<T>(entries: seq<Entry<T>>, e: Entry<T>)
    requires e in entries && Arrived(e)
    ensures e.record in ArrivedRecords(entries)
  {
    var front, last := entries[..|entries| - 1], entries[|entries| - 1];
    assert entries == front + [last];
    if e != last {
      ArrivedHas(front, e);
    }
  }

  /** A read from `since` to `now` that gives all that arrived gives every record of the kind whose time is between. */
  lemma EveryRecordBetween<T>(history: seq<Entry<T>>, prefix: string, since: nat, now: nat, e: Entry<T>)
    requires e in history && e.prefix == prefix && Arrived(e) && since <= e.ts <= now
    ensures e.record in Appended(history, prefix, since / SECS_PER_DAY, DayCount(since, now))
  {
    var day := e.ts / SECS_PER_DAY;
    DaysBetween(since, now, e.ts);
    OfDayHas(history, prefix, day, e);
    ArrivedHas(OfDay(history, prefix, day), e);
    InRangeHas(Arrivals(history, prefix), since / SECS_PER_DAY, DayCount(since, now), day, e.record);
  }

  // ----- what gets lost -----

  /** A whole record after one that lacks its newline: neither can be read. A record cut inside a character: nothing
      can. */
  lemma TornLinesLose<T>(prefix: string, ts: nat, a: T, b: T, c: T)
    ensures var written, unended, later, cut := Entry(prefix, ts, a, Written), Entry(prefix, ts, b, NoNewline),
                                                Entry(prefix, ts, c, Written), Entry(prefix, ts, b, Torn(true));
            && FileRead(FileAfter([written, unended])) == Some([a, b])
            && FileRead(FileAfter([written, unended, later])) == Some([a])
            && FileRead(FileAfter([written, cut])) == None
  {
    var written, unended, later, cut := Entry(prefix, ts, a, Written), Entry(prefix, ts, b, NoNewline),
                                        Entry(prefix, ts, c, Written), Entry(prefix, ts, b, Torn(true));
    assert [written, unended, later][..2] == [written, unended];
    assert [written, unended][..1] == [written] == [written, cut][..1];
    assert [written][..0] == [];
    assert EndsClean([written]) && !EndsClean([written, unended]);
    assert WholeLines([written]) == [a];
    assert [a] + [] == [a];
    assert WholeLines([written, unended]) == WholeLines([written]) + [];
    assert LastUnended([written, unended]) == [b] && [a] + [b] == [a, b];
    FileKeepsWholeLines([written, unended]);
    FileKeepsWholeLines([written, unended, later]);
    FileKeepsWholeLines([written, cut]);
    assert [written, cut][1].outcome == Torn(true);
  }
}
