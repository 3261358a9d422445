/** The names of the day logs, crates/calliope-cli/src/canary/record.rs: one file a day for each kind of record, named by
    its UTC date. */
module LogNames {
  import opened Prelude
  import opened Calendar

  const SECS_PER_DAY: nat := 86_400

  // ----- file names -----

  function Digit(d: nat): char
    requires d < 10
  {
    '0' + d as char
  }

  function Decimal(n: nat): (s: string)
    ensures |s| >= 1
  {
    if n < 10 then [Digit(n)] else Decimal(n / 10) + [Digit(n % 10)]
  }

  function Zeros(n: nat): (s: string)
    ensures |s| == n
  {
    if n == 0 then "" else Zeros(n - 1) + "0"
  }

  function Padded(n: nat, width: nat): string {
    var s := Decimal(n);
    if |s| < width then Zeros(width - |s|) + s else s
  }

  function DateText(d: Date): string {
    Padded(d.year, 4) + "-" + Padded(d.month, 2) + "-" + Padded(d.day, 2)
  }

  function UtcDate(ts: nat): string {
    DateText(CivilFromDays(ts / SECS_PER_DAY))
  }

  function LogFile(prefix: string, ts: nat): string {
    prefix + "-" + UtcDate(ts) + ".jsonl"
  }

  /** What a string of digits is worth. */
  function Worth(s: string): int {
    if s == "" then 0 else 10 * Worth(s[..|s| - 1]) + (s[|s| - 1] as int - '0' as int)
  }

  lemma {:induction false} WorthOfDecimal(n: nat)
    ensures Worth(Decimal(n)) == n
  {
    if n >= 10 {
      WorthOfDecimal(n / 10);
      assert Decimal(n)[..|Decimal(n)| - 1] == Decimal(n / 10);
    }
  }

  lemma {:induction false} WorthOfZeros(zeros: nat, s: string)
    ensures Worth(Zeros(zeros) + s) == Worth(s)
  {
    var all := Zeros(zeros) + s;
    if s != "" {
      WorthOfZeros(zeros, s[..|s| - 1]);
      assert all[..|all| - 1] == Zeros(zeros) + s[..|s| - 1];
    } else if zeros > 0 {
      WorthOfZeros(zeros - 1, "");
      assert all == Zeros(zeros) && all[..|all| - 1] == Zeros(zeros - 1) + "";
    }
  }

  lemma WorthOfPadded(n: nat, width: nat)
    ensures Worth(Padded(n, width)) == n
  {
    WorthOfDecimal(n);
    if |Decimal(n)| < width {
      WorthOfZeros(width - |Decimal(n)|, Decimal(n));
    }
  }

  lemma PaddedIsInjective(m: nat, n: nat, width: nat)
    requires Padded(m, width) == Padded(n, width)
    ensures m == n
  {
    WorthOfPadded(m, width);
    WorthOfPadded(n, width);
  }

  lemma TwoDigits(n: nat)
    requires n < 100
    ensures |Padded(n, 2)| == 2
  {
    if n >= 10 {
      assert |Decimal(n / 10)| == 1;
    }
  }

  lemma PartsOfDateText(d: Date)
    requires IsDate(d)
    ensures var s := DateText(d);
            && |s| >= 6
            && s[..|s| - 6] == Padded(d.year, 4)
            && s[|s| - 5..|s| - 3] == Padded(d.month, 2)
            && s[|s| - 2..] == Padded(d.day, 2)
  {
    TwoDigits(d.month);
    TwoDigits(d.day);
    PartsOf(Padded(d.year, 4), Padded(d.month, 2), Padded(d.day, 2));
  }

  lemma PartsOf(year: string, month: string, day: string)
    requires |month| == 2 && |day| == 2
    ensures var s := year + "-" + month + "-" + day;
            && |s| == |year| + 6
            && s[..|s| - 6] == year
            && s[|s| - 5..|s| - 3] == month
            && s[|s| - 2..] == day
  {
  }

  /** The text of a date: its year, in four digits up to the year 9999, its month and its day, in two digits each. */
  lemma DateTextSays(d: Date)
    requires IsDate(d)
    ensures var s := DateText(d);
            var year, month, day := s[..|s| - 6], s[|s| - 5..|s| - 3], s[|s| - 2..];
            && s == year + "-" + month + "-" + day
            && Worth(year) == d.year && Worth(month) == d.month && Worth(day) == d.day
            && (d.year < 10_000 ==> |year| == 4)
            && AllDigits(year) && AllDigits(month) && AllDigits(day)
  {
    PartsOfDateText(d);
    WorthOfPadded(d.year, 4);
    WorthOfPadded(d.month, 2);
    WorthOfPadded(d.day, 2);
    PaddedIsDigits(d.year, 4);
    PaddedIsDigits(d.month, 2);
    PaddedIsDigits(d.day, 2);
    DecimalLength(d.year);
  }

  lemma {:induction false} DecimalLength(n: nat)
    ensures n < 10_000 ==> |Decimal(n)| <= 4
    ensures n < 1_000 ==> |Decimal(n)| <= 3
    ensures n < 100 ==> |Decimal(n)| <= 2
    ensures n < 10 ==> |Decimal(n)| <= 1
  {
    if n >= 10 {
      DecimalLength(n / 10);
    }
  }

  lemma PaddedIsDigits(n: nat, width: nat)
    ensures AllDigits(Padded(n, width))
  {
    DecimalIsDigits(n);
    if |Decimal(n)| < width {
      ZerosAreDigits(width - |Decimal(n)|);
    }
  }

  lemma {:induction false} DecimalIsDigits(n: nat)
    ensures AllDigits(Decimal(n))
  {
    if n >= 10 {
      DecimalIsDigits(n / 10);
    }
  }

  lemma {:induction false} ZerosAreDigits(n: nat)
    ensures AllDigits(Zeros(n))
  {
    if n > 0 {
      ZerosAreDigits(n - 1);
    }
  }

  lemma DateTextIsInjective(a: Date, b: Date)
    requires IsDate(a) && IsDate(b) && DateText(a) == DateText(b)
    ensures a == b
  {
    PartsOfDateText(a);
    PartsOfDateText(b);
    PaddedIsInjective(a.year, b.year, 4);
    PaddedIsInjective(a.month, b.month, 2);
    PaddedIsInjective(a.day, b.day, 2);
  }

  /** Two seconds have one date exactly when they are in one day. */
  lemma OneDateADay(s: nat, t: nat)
    ensures UtcDate(s) == UtcDate(t) <==> s / SECS_PER_DAY == t / SECS_PER_DAY
  {
    var a, b := s / SECS_PER_DAY, t / SECS_PER_DAY;
    if UtcDate(s) == UtcDate(t) {
      CivilIsTheCalendar(a);
      CivilIsTheCalendar(b);
      DateTextIsInjective(CivilFromDays(a), CivilFromDays(b));
      if a < b {
        DatesFollowDays(a, b);
      } else if b < a {
        DatesFollowDays(b, a);
      }
    }
  }

  /** A kind of record, "samples", "incidents" or "recoveries", has no dash in its name. */
  predicate IsPrefix(prefix: string) {
    '-' !in prefix
  }

  lemma FirstDash(prefix: string, rest: string)
    requires IsPrefix(prefix)
    ensures (prefix + "-" + rest)[|prefix|] == '-'
    ensures forall i :: 0 <= i < |prefix| ==> (prefix + "-" + rest)[i] != '-'
  {
  }

  lemma DashSplits(p: string, x: string, q: string, y: string)
    requires IsPrefix(p) && IsPrefix(q) && p + "-" + x == q + "-" + y
    ensures p == q && x == y
  {
    FirstDash(p, x);
    FirstDash(q, y);
    assert |p| == |q|;
    assert p == (p + "-" + x)[..|p|] && q == (q + "-" + y)[..|q|];
    assert x == (p + "-" + x)[|p| + 1..] && y == (q + "-" + y)[|q| + 1..];
  }

  lemma SameStart(x: string, y: string, end: string)
    requires x + end == y + end
    ensures x == y
  {
    assert x == (x + end)[..|x|] && y == (y + end)[..|y|];
  }

  /** Each file is that of one kind of record and one day. */
  lemma FileIsKindAndDay(p: string, s: nat, q: string, t: nat)
    requires IsPrefix(p) && IsPrefix(q)
    ensures LogFile(p, s) == LogFile(q, t) <==> p == q && s / SECS_PER_DAY == t / SECS_PER_DAY
  {
    OneDateADay(s, t);
    NamesSplit(p, UtcDate(s), q, UtcDate(t));
  }

  lemma NamesSplit(p: string, ds: string, q: string, dt: string)
    requires IsPrefix(p) && IsPrefix(q)
    ensures p + "-" + ds + ".jsonl" == q + "-" + dt + ".jsonl" <==> p == q && ds == dt
  {
    assert p + "-" + ds + ".jsonl" == p + "-" + (ds + ".jsonl") && q + "-" + dt + ".jsonl" == q + "-" + (dt + ".jsonl");
    if p + "-" + ds + ".jsonl" == q + "-" + dt + ".jsonl" {
      DashSplits(p, ds + ".jsonl", q, dt + ".jsonl");
      SameStart(ds, dt, ".jsonl");
    }
  }

  /** The file of a kind of record and a day. */
  type Naming = (string, nat) -> string

  function ByDate(): Naming {
    (prefix: string, day: nat) => LogFile(prefix, day * SECS_PER_DAY)
  }

  lemma SecondsShareTheDay(prefix: string, ts: nat)
    ensures LogFile(prefix, ts) == ByDate()(prefix, ts / SECS_PER_DAY)
  {
    OneDateADay(ts, ts / SECS_PER_DAY * SECS_PER_DAY);
  }

  ghost predicate OneFileEach(naming: Naming) {
    forall p, d: nat, q, e: nat :: IsPrefix(p) && IsPrefix(q) && naming(p, d) == naming(q, e) ==> p == q && d == e
  }

  /** No two kinds or days share a file, for as long as there are days. */
  lemma DatesNameTheFiles()
    ensures OneFileEach(ByDate())
  {
    forall p, d: nat, q, e: nat | IsPrefix(p) && IsPrefix(q) && ByDate()(p, d) == ByDate()(q, e)
      ensures p == q && d == e
    {
      FileIsKindAndDay(p, d * SECS_PER_DAY, q, e * SECS_PER_DAY);
    }
  }
}
