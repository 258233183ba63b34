/** db/manual-migrations/partition-audit-logs.ts: the calendar arithmetic that plans the monthly
    partitions of the audit log. */
module AuditPartitions {
  import opened Prelude
  import opened Decimals

  const AUDIT_LOG_TABLE := "audit_logs"
  const PARTITION_MONTHS := 20 * 12

  /** A calendar date; months count from 1. */
  datatype Date = Date(year: nat, month: nat, day: nat)

  predicate IsLeap(year: nat) {
    year % 4 == 0 && (year % 100 != 0 || year % 400 == 0)
  }

  function DaysInMonth(year: nat, month: nat): (n: nat)
    ensures 28 <= n <= 31
  {
    if month == 2 then (if IsLeap(year) then 29 else 28)
    else if month == 4 || month == 6 || month == 9 || month == 11 then 30
    else 31
  }

  predicate ValidDate(d: Date) {
    1 <= d.month <= 12 && 1 <= d.day <= DaysInMonth(d.year, d.month)
  }

  predicate Before(a: Date, b: Date) {
    || a.year < b.year
    || (a.year == b.year && a.month < b.month)
    || (a.year == b.year && a.month == b.month && a.day < b.day)
  }

  /** date.setDate(date.getDate() + 1): a day past the end of the month overflows. */
  function NextDay(d: Date): Date {
    if d.day + 1 <= DaysInMonth(d.year, d.month) then d.(day := d.day + 1)
    else if d.month < 12 then Date(d.year, d.month + 1, 1)
    else Date(d.year + 1, 1, 1)
  }

  /** new Date(year, month0 + ahead, 1), with the month counted from 0: months past December overflow
      into later years. */
  function FirstOfMonth(year: nat, month0: nat, ahead: nat): Date {
    Date(year + (month0 + ahead) / 12, (month0 + ahead) % 12 + 1, 1)
  }

  /** The day after is the least later date. */
  lemma NextDayIsSuccessor(d: Date)
    requires ValidDate(d)
    ensures ValidDate(NextDay(d)) && Before(d, NextDay(d))
    ensures forall e :: ValidDate(e) && Before(d, e) ==> e == NextDay(d) || Before(NextDay(d), e)
  {
  }

  /** Days before the March that begins the y-th year of a calendar whose years begin in March. */
  function DaysBeforeYear(y: int): int {
    365 * y + y / 4 - y / 100 + y / 400
  }

  /** Days before its m-th month, counted from 0. */
  function DaysBeforeMonth(m: int): int {
    (153 * m + 2) / 5
  }

  /** Days since the first of March of the year 0, in closed form: the year and the month are counted
      from March, so that a leap day ends its year and the lengths of months repeat every five. */
  function DayNumber(d: Date): int {
    if d.month <= 2 then DaysBeforeYear(d.year - 1) + DaysBeforeMonth(d.month + 9) + d.day - 1
    else DaysBeforeYear(d.year) + DaysBeforeMonth(d.month - 3) + d.day - 1
  }

  lemma LeapCount(y: nat)
    ensures y / 4 - (y - 1) / 4 == if y % 4 == 0 then 1 else 0
    ensures y / 100 - (y - 1) / 100 == if y % 100 == 0 then 1 else 0
    ensures y / 400 - (y - 1) / 400 == if y % 400 == 0 then 1 else 0
  {
  }

  lemma HundredsAreHundreds(k: nat)
    ensures 100 * k % 100 == 0
  {
  }

  lemma HundredsAreFours(k: nat)
    ensures 100 * k % 4 == 0
  {
  }

  lemma YearLength(y: nat)
    ensures DaysBeforeYear(y) - DaysBeforeYear(y - 1) == if IsLeap(y) then 366 else 365
  {
    LeapCount(y);
    if y % 100 == 0 {
      HundredsAreFours(y / 100);
    } else if y % 400 == 0 {
      HundredsAreHundreds(4 * (y / 400));
    }
  }

  lemma MonthTable(m: nat)
    requires m < 12
    ensures DaysBeforeMonth(m) == [0, 31, 61, 92, 122, 153, 184, 214, 245, 275, 306, 337][m]
  {
  }

  lemma WithinMonth(d: Date)
    requires ValidDate(d) && d.day < DaysInMonth(d.year, d.month)
    ensures DayNumber(NextDay(d)) == DayNumber(d) + 1
  {
  }

  lemma EndOfFebruary(year: nat)
    ensures DayNumber(Date(year, 3, 1)) == DayNumber(Date(year, 2, 1)) + if IsLeap(year) then 29 else 28
  {
    YearLength(year);
  }

  lemma EndOfMonth(d: Date)
    requires ValidDate(d) && d.month != 2 && d.day == DaysInMonth(d.year, d.month)
    ensures DayNumber(NextDay(d)) == DayNumber(d) + 1
  {
    var m := if d.month <= 2 then d.month + 9 else d.month - 3;
    MonthTable(m);
    MonthTable(m + 1);
  }

  /** The calendar is the Gregorian one: by that count, the next day is one day later. */
  lemma NextDayIsOneDayLater(d: Date)
    requires ValidDate(d)
    ensures DayNumber(NextDay(d)) == DayNumber(d) + 1
  {
    if d.day < DaysInMonth(d.year, d.month) {
      WithinMonth(d);
    } else if d.month == 2 {
      EndOfFebruary(d.year);
    } else {
      EndOfMonth(d);
    }
  }

  // ---------------------------------------------------------------- formatting

  /** padStart(2, "0"). */
  function PadStart2(s: string): string {
    if |s| >= 2 then s else if |s| == 1 then "0" + s else "00"
  }

  function FormatPartitionDate(d: Date): string {
    Decimal(d.year) + "-" + PadStart2(Decimal(d.month)) + "-" + PadStart2(Decimal(d.day))
  }

  /** replaceAll("-", ""). */
  function WithoutDashes(s: string): string {
    if s == [] then [] else (if s[0] == '-' then [] else [s[0]]) + WithoutDashes(s[1..])
  }

  function PartitionName(start: Date, end: Date): string {
    AUDIT_LOG_TABLE + "_" + (WithoutDashes(FormatPartitionDate(start)) + "_" + WithoutDashes(FormatPartitionDate(end)))
  }

  lemma {:induction false} DecimalDigits(n: nat)
    ensures n < 10 ==> Decimal(n) == [Digit(n)]
    ensures 10 <= n < 100 ==> Decimal(n) == [Digit(n / 10), Digit(n % 10)]
    ensures 1000 <= n < 10000 ==>
              Decimal(n) == [Digit(n / 1000), Digit(n / 100 % 10), Digit(n / 10 % 10), Digit(n % 10)]
  {
    if 10 <= n < 100 {
      assert Decimal(n / 10) == [Digit(n / 10)];
    }
    if 1000 <= n < 10000 {
      var a := n / 10;
      assert a / 10 == n / 100 && a / 100 == n / 1000;
      assert Decimal(n / 1000) == [Digit(n / 1000)];
      assert Decimal(n / 100) == Decimal(n / 1000) + [Digit(n / 100 % 10)];
      assert Decimal(n / 10) == Decimal(n / 100) + [Digit(n / 10 % 10)];
    }
  }

  lemma PaddedDigits(n: nat)
    requires n < 100
    ensures PadStart2(Decimal(n)) == [Digit(n / 10), Digit(n % 10)]
  {
    DecimalDigits(n);
  }

  lemma ParsePadded(n: nat)
    requires n < 100
    ensures |PadStart2(Decimal(n))| == 2 && Parse(PadStart2(Decimal(n))) == n
  {
    PaddedDigits(n);
    var s := PadStart2(Decimal(n));
    assert s[..1] == [s[0]] && [s[0]][..0] == [];
    assert Parse([s[0]]) == n / 10;
  }

  /** A formatted date reads back: the year, then two digits each for month and day, between dashes. */
  lemma FormattedDateReadsBack(d: Date)
    requires ValidDate(d)
    ensures var s := FormatPartitionDate(d);
            var n := |s| - 6;
            && n >= 1
            && s[n] == s[n + 3] == '-'
            && Parse(s[..n]) == d.year && Parse(s[n + 1..n + 3]) == d.month && Parse(s[n + 4..]) == d.day
  {
    ParseDecimal(d.year);
    ParsePadded(d.month);
    ParsePadded(d.day);
    DateParts(Decimal(d.year), PadStart2(Decimal(d.month)), PadStart2(Decimal(d.day)));
  }

  lemma DateParts(year: string, month: string, day: string)
    requires |month| == |day| == 2
    ensures var s, n := year + "-" + month + "-" + day, |year|;
            && |s| == n + 6 && s[n] == s[n + 3] == '-'
            && s[..n] == year && s[n + 1..n + 3] == month && s[n + 4..] == day
  {
  }

  // ---------------------------------------------------------------- formatted bounds sort as dates

  /** Lexicographic order of strings, by character code. */
  predicate StringLess(a: string, b: string) {
    b != [] && (a == [] || a[0] < b[0] || (a[0] == b[0] && StringLess(a[1..], b[1..])))
  }

  lemma {:induction false} CompareConcat(a: string, b: string, x: string, y: string)
    requires |a| == |b|
    ensures StringLess(a + x, b + y) <==> StringLess(a, b) || (a == b && StringLess(x, y))
    decreases |a|
  {
    if a == [] {
      assert a + x == x && b + y == y;
    } else {
      assert (a + x)[1..] == a[1..] + x && (b + y)[1..] == b[1..] + y;
      assert a == [a[0]] + a[1..] && b == [b[0]] + b[1..];
      CompareConcat(a[1..], b[1..], x, y);
    }
  }

  lemma CompareChars(a: char, b: char)
    ensures StringLess([a], [b]) <==> a < b
  {
  }

  function TwoDigits(n: nat): string
    requires n < 100
  {
    [Digit(n / 10), Digit(n % 10)]
  }

  lemma CompareTwoDigits(m: nat, n: nat)
    requires m < 100 && n < 100
    ensures StringLess(TwoDigits(m), TwoDigits(n)) <==> m < n
    ensures TwoDigits(m) == TwoDigits(n) <==> m == n
  {
    assert TwoDigits(m) == [Digit(m / 10)] + [Digit(m % 10)];
    assert TwoDigits(n) == [Digit(n / 10)] + [Digit(n % 10)];
    CompareConcat([Digit(m / 10)], [Digit(n / 10)], [Digit(m % 10)], [Digit(n % 10)]);
    CompareChars(Digit(m / 10), Digit(n / 10));
    CompareChars(Digit(m % 10), Digit(n % 10));
  }

  lemma CompareYears(m: nat, n: nat)
    requires 1000 <= m < 10000 && 1000 <= n < 10000
    ensures |Decimal(m)| == 4
    ensures StringLess(Decimal(m), Decimal(n)) <==> m < n
  {
    DecimalDigits(m);
    DecimalDigits(n);
    assert Decimal(m) == TwoDigits(m / 100) + TwoDigits(m % 100) by { SplitYear(m); }
    assert Decimal(n) == TwoDigits(n / 100) + TwoDigits(n % 100) by { SplitYear(n); }
    CompareConcat(TwoDigits(m / 100), TwoDigits(n / 100), TwoDigits(m % 100), TwoDigits(n % 100));
    CompareTwoDigits(m / 100, n / 100);
    CompareTwoDigits(m % 100, n % 100);
  }

  lemma SplitYear(n: nat)
    requires 1000 <= n < 10000
    ensures Digit(n / 1000) == Digit(n / 100 / 10)
    ensures Digit(n / 10 % 10) == Digit(n % 100 / 10)
    ensures Digit(n % 10) == Digit(n % 100 % 10)
  {
    var q, r := n / 100, n % 100;
    DigitsOf(q / 10, q % 10, r / 10, r % 10, n);
  }

  lemma DigitsOf(a: nat, b: nat, c: nat, d: nat, n: nat)
    requires b < 10 && c < 10 && d < 10 && n == 1000 * a + 100 * b + 10 * c + d
    ensures n / 1000 == a && n / 10 % 10 == c && n % 10 == d
  {
    assert n / 10 == 100 * a + 10 * b + c;
  }

  /** With four-digit years, string order of formatted dates is date order. */
  lemma FormattedDatesSortAsDates(a: Date, b: Date)
    requires ValidDate(a) && ValidDate(b)
    requires 1000 <= a.year < 10000 && 1000 <= b.year < 10000
    ensures StringLess(FormatPartitionDate(a), FormatPartitionDate(b)) <==> Before(a, b)
  {
    PaddedDigits(a.month);
    PaddedDigits(a.day);
    PaddedDigits(b.month);
    PaddedDigits(b.day);
    var x, y := "-" + TwoDigits(a.day), "-" + TwoDigits(b.day);
    var v, w := "-" + (TwoDigits(a.month) + x), "-" + (TwoDigits(b.month) + y);
    assert FormatPartitionDate(a) == Decimal(a.year) + v;
    assert FormatPartitionDate(b) == Decimal(b.year) + w;
    CompareYears(a.year, b.year);
    CompareYears(b.year, a.year);
    if a.year != b.year { YearsDiffer(a.year, b.year); }
    CompareConcat(Decimal(a.year), Decimal(b.year), v, w);
    CompareConcat("-", "-", TwoDigits(a.month) + x, TwoDigits(b.month) + y);
    CompareConcat(TwoDigits(a.month), TwoDigits(b.month), x, y);
    CompareConcat("-", "-", TwoDigits(a.day), TwoDigits(b.day));
    CompareChars('-', '-');
    CompareTwoDigits(a.month, b.month);
    CompareTwoDigits(a.day, b.day);
  }

  lemma YearsDiffer(m: nat, n: nat)
    requires m != n
    ensures Decimal(m) != Decimal(n)
  {
    if Decimal(m) == Decimal(n) {
      DecimalInjective(m, n);
    }
  }

  // ---------------------------------------------------------------- partition names

  lemma {:induction false} WithoutDashesConcat(a: string, b: string)
    ensures WithoutDashes(a + b) == WithoutDashes(a) + WithoutDashes(b)
    decreases |a|
  {
    if a == [] {
      assert a + b == b;
    } else {
      assert (a + b)[1..] == a[1..] + b;
      WithoutDashesConcat(a[1..], b);
    }
  }

  lemma {:induction false} NoDashes(s: string)
    requires '-' !in s
    ensures WithoutDashes(s) == s
    decreases |s|
  {
    if s != [] {
      NoDashes(s[1..]);
    }
  }

  lemma DropDash(s: string, t: string)
    requires '-' !in s
    ensures WithoutDashes(s + ("-" + t)) == s + WithoutDashes(t)
  {
    var u := "-" + t;
    WithoutDashesConcat(s, u);
    NoDashes(s);
    assert u[0] == '-' && u[1..] == t;
    assert WithoutDashes(u) == WithoutDashes(t);
  }

  /** The date part of a name: the year followed by four digits. */
  lemma CompactDate(d: Date)
    requires ValidDate(d)
    ensures WithoutDashes(FormatPartitionDate(d)) == Decimal(d.year) + (TwoDigits(d.month) + TwoDigits(d.day))
  {
    PaddedDigits(d.month);
    PaddedDigits(d.day);
    var y, m, e := Decimal(d.year), TwoDigits(d.month), TwoDigits(d.day);
    assert FormatPartitionDate(d) == y + ("-" + (m + ("-" + e)));
    DropDash(y, m + ("-" + e));
    DropDash(m, e);
    NoDashes(e);
  }

  lemma CompactDateHasNoSeparator(d: Date)
    requires ValidDate(d)
    ensures forall c :: c in WithoutDashes(FormatPartitionDate(d)) ==> c != '_'
  {
    CompactDate(d);
    assert forall c :: c in Decimal(d.year) ==> c != '_';
    assert forall c :: c in TwoDigits(d.month) + TwoDigits(d.day) ==> c != '_';
  }

  lemma CompactDateInjective(a: Date, b: Date)
    requires ValidDate(a) && ValidDate(b)
    requires WithoutDashes(FormatPartitionDate(a)) == WithoutDashes(FormatPartitionDate(b))
    ensures a == b
  {
    CompactDate(a);
    CompactDate(b);
    var s := WithoutDashes(FormatPartitionDate(a));
    var t := TwoDigits(a.month) + TwoDigits(a.day);
    var u := TwoDigits(b.month) + TwoDigits(b.day);
    assert s[..|s| - 4] == Decimal(a.year) && s[|s| - 4..] == t;
    assert s[..|s| - 4] == Decimal(b.year) && s[|s| - 4..] == u;
    DecimalInjective(a.year, b.year);
    assert t[..2] == TwoDigits(a.month) && t[2..] == TwoDigits(a.day);
    assert u[..2] == TwoDigits(b.month) && u[2..] == TwoDigits(b.day);
    CompareTwoDigits(a.month, b.month);
    CompareTwoDigits(a.day, b.day);
  }

  lemma FirstSeparator(a: string, x: string)
    requires forall c :: c in a ==> c != '_'
    ensures (a + "_" + x)[|a|] == '_' && (a + "_" + x)[..|a|] == a
    ensures forall k :: 0 <= k < |a| ==> (a + "_" + x)[k] != '_'
  {
    forall k | 0 <= k < |a| ensures (a + "_" + x)[k] != '_' {
      assert (a + "_" + x)[k] == a[k] && a[k] in a;
    }
  }

  /** A separator that the first parts do not contain determines where they end. */
  lemma SplitAtSeparator(a: string, x: string, b: string, y: string)
    requires forall c :: c in a ==> c != '_'
    requires forall c :: c in b ==> c != '_'
    requires a + "_" + x == b + "_" + y
    ensures a == b
  {
    FirstSeparator(a, x);
    FirstSeparator(b, y);
    assert |a| == |b|;
  }

  /** A partition's name determines its first day. */
  lemma NameDeterminesStart(s: Date, e: Date, s': Date, e': Date)
    requires ValidDate(s) && ValidDate(s')
    requires PartitionName(s, e) == PartitionName(s', e')
    ensures s == s'
  {
    CompactDateHasNoSeparator(s);
    CompactDateHasNoSeparator(s');
    var a, b := WithoutDashes(FormatPartitionDate(s)), WithoutDashes(FormatPartitionDate(s'));
    var x, y := WithoutDashes(FormatPartitionDate(e)), WithoutDashes(FormatPartitionDate(e'));
    CutPrefix(AUDIT_LOG_TABLE + "_", a + "_" + x, b + "_" + y);
    SplitAtSeparator(a, x, b, y);
    CompactDateInjective(s, s');
  }

  /** It determines the day it ends before as well. */
  lemma NameDeterminesRange(s: Date, e: Date, s': Date, e': Date)
    requires ValidDate(s) && ValidDate(s') && ValidDate(e) && ValidDate(e')
    requires PartitionName(s, e) == PartitionName(s', e')
    ensures s == s' && e == e'
  {
    NameDeterminesStart(s, e, s', e');
    var a := WithoutDashes(FormatPartitionDate(s));
    var x, y := WithoutDashes(FormatPartitionDate(e)), WithoutDashes(FormatPartitionDate(e'));
    CutPrefix(AUDIT_LOG_TABLE + "_", a + "_" + x, a + "_" + y);
    CutPrefix(a + "_", x, y);
    CompactDateInjective(e, e');
  }

  lemma CutPrefix(prefix: string, x: string, y: string)
    requires prefix + x == prefix + y
    ensures x == y
  {
    assert x == (prefix + x)[|prefix|..];
    assert y == (prefix + y)[|prefix|..];
  }

  // ---------------------------------------------------------------- the plan

  /** The dates from `from` up to, not including, `to`. */
  datatype Range = Range(from: Date, to: Date)

  datatype Partition = Partition(name: string, from: string, to: string)

  predicate Contains(r: Range, d: Date) {
    !Before(d, r.from) && Before(d, r.to)
  }

  function CreateAuditLogPartition(r: Range): Partition {
    Partition(PartitionName(r.from, r.to), FormatPartitionDate(r.from), FormatPartitionDate(r.to))
  }

  /** The k-th generated range: the rest of the current month, then whole months. */
  function RangeAt(nextDate: Date, k: nat): Range
    requires nextDate.month >= 1
  {
    Range(if k == 0 then nextDate else FirstOfMonth(nextDate.year, nextDate.month - 1, k),
          FirstOfMonth(nextDate.year, nextDate.month - 1, k + 1))
  }

  /** The first `n` generated ranges. */
  function Plan(nextDate: Date, n: nat): (p: seq<Range>)
    requires nextDate.month >= 1
    ensures |p| == n
  {
    if n == 0 then [] else Plan(nextDate, n - 1) + [RangeAt(nextDate, n - 1)]
  }

  lemma PlanGrows(nextDate: Date, n: nat)
    requires nextDate.month >= 1
    ensures Plan(nextDate, n + 1) == Plan(nextDate, n) + [RangeAt(nextDate, n)]
  {
  }

  /** The planning part of the migration run on `today`: the day up to which the old table is
      attached, and the ranges handed to createAuditLogPartition one after the other. */
  method PlanPartitions(today: Date) returns (nextDate: Date, partitions: seq<Range>)
    requires ValidDate(today)
    ensures nextDate == NextDay(today)
    ensures partitions == Plan(nextDate, PARTITION_MONTHS + 1)
  {
    nextDate := NextDay(today);
    var r := Range(nextDate, FirstOfMonth(nextDate.year, nextDate.month - 1, 1));
    partitions := [r];
    PlanGrows(nextDate, 0);
    assert Plan(nextDate, 0) + [r] == [r];
    var x := 1;
    while x <= PARTITION_MONTHS
      invariant 1 <= x <= PARTITION_MONTHS + 1
      invariant partitions == Plan(nextDate, x)
    {
      r := Range(FirstOfMonth(nextDate.year, nextDate.month - 1, x),
                 FirstOfMonth(nextDate.year, nextDate.month - 1, x + 1));
      partitions := partitions + [r];
      PlanGrows(nextDate, x);
      x := x + 1;
    }
  }

  lemma {:induction false} PlanAt(nextDate: Date, n: nat, k: nat)
    requires nextDate.month >= 1 && k < n
    ensures Plan(nextDate, n)[k] == RangeAt(nextDate, k)
  {
    if k < n - 1 {
      PlanAt(nextDate, n - 1, k);
    }
  }

  /** Months since year 0. */
  function MonthIndex(d: Date): int {
    12 * d.year + d.month - 1
  }

  lemma FirstOfMonthIndex(year: nat, month0: nat, ahead: nat)
    ensures var d := FirstOfMonth(year, month0, ahead);
            ValidDate(d) && d.day == 1 && MonthIndex(d) == 12 * year + month0 + ahead
  {
  }

  /** A valid date precedes the first of a month exactly if its month does. */
  lemma BeforeFirst(d: Date, first: Date)
    requires ValidDate(d) && ValidDate(first) && first.day == 1
    ensures Before(d, first) <==> MonthIndex(d) < MonthIndex(first)
  {
  }

  /** Each range is non-empty and ends where the next one begins. */
  lemma RangesAreContiguous(nextDate: Date, k: nat)
    requires ValidDate(nextDate)
    ensures var r := RangeAt(nextDate, k);
            && ValidDate(r.from) && ValidDate(r.to)
            && Before(r.from, r.to)
            && r.to == RangeAt(nextDate, k + 1).from
  {
    FirstOfMonthIndex(nextDate.year, nextDate.month - 1, k);
    FirstOfMonthIndex(nextDate.year, nextDate.month - 1, k + 1);
    BeforeFirst(RangeAt(nextDate, k).from, RangeAt(nextDate, k).to);
  }

  /** Which range a date lies in can be read off its month. */
  lemma ContainedByMonth(nextDate: Date, k: nat, d: Date)
    requires ValidDate(nextDate) && ValidDate(d)
    ensures Contains(RangeAt(nextDate, k), d)
            <==> !Before(d, nextDate) && MonthIndex(d) - MonthIndex(nextDate) == k
  {
    FirstOfMonthIndex(nextDate.year, nextDate.month - 1, k);
    FirstOfMonthIndex(nextDate.year, nextDate.month - 1, k + 1);
    var r := RangeAt(nextDate, k);
    BeforeFirst(d, r.to);
    if k > 0 {
      BeforeFirst(d, r.from);
    }
  }

  /** The partitions tile the time line. Dates before tomorrow go to the attached old table only; every
      date from tomorrow to the first of the 241st following month lies in exactly one generated
      range; later dates lie in none. */
  lemma PartitionsTileTheTimeLine(today: Date, d: Date)
    requires ValidDate(today) && ValidDate(d)
    ensures var nextDate := NextDay(today);
            var horizon := FirstOfMonth(nextDate.year, nextDate.month - 1, PARTITION_MONTHS + 1);
            && (Before(d, nextDate) || !Before(d, horizon) ==>
                  forall k :: 0 <= k <= PARTITION_MONTHS ==> !Contains(RangeAt(nextDate, k), d))
            && (!Before(d, nextDate) && Before(d, horizon) ==>
                  exists k :: 0 <= k <= PARTITION_MONTHS && Contains(RangeAt(nextDate, k), d)
                    && forall j :: 0 <= j <= PARTITION_MONTHS && j != k ==> !Contains(RangeAt(nextDate, j), d))
            && RangeAt(nextDate, PARTITION_MONTHS).to == horizon
  {
    var nextDate := NextDay(today);
    NextDayIsSuccessor(today);
    var horizon := FirstOfMonth(nextDate.year, nextDate.month - 1, PARTITION_MONTHS + 1);
    FirstOfMonthIndex(nextDate.year, nextDate.month - 1, PARTITION_MONTHS + 1);
    BeforeFirst(d, horizon);
    forall k: nat ensures Contains(RangeAt(nextDate, k), d)
                          <==> !Before(d, nextDate) && MonthIndex(d) - MonthIndex(nextDate) == k
    {
      ContainedByMonth(nextDate, k, d);
    }
    if !Before(d, nextDate) && Before(d, horizon) {
      var k := MonthIndex(d) - MonthIndex(nextDate);
      assert Contains(RangeAt(nextDate, k), d);
    }
  }

  /** The last range ends on the first of the month 241 months, twenty years and a month, after that of the
      first planned day. */
  lemma PlanReachesTwentyYearsAhead(nextDate: Date)
    requires ValidDate(nextDate)
    ensures var end := RangeAt(nextDate, PARTITION_MONTHS).to;
            ValidDate(end) && end.day == 1
            && 12 * end.year + end.month == 12 * nextDate.year + nextDate.month + 241
  {
    FirstOfMonthIndex(nextDate.year, nextDate.month - 1, PARTITION_MONTHS + 1);
  }

  /** No two planned partitions share a name. */
  lemma PartitionNamesAreDistinct(nextDate: Date, n: nat, j: nat, k: nat)
    requires ValidDate(nextDate) && j < k < n
    ensures CreateAuditLogPartition(Plan(nextDate, n)[j]).name != CreateAuditLogPartition(Plan(nextDate, n)[k]).name
  {
    PlanAt(nextDate, n, j);
    PlanAt(nextDate, n, k);
    var r, s := RangeAt(nextDate, j), RangeAt(nextDate, k);
    RangesAreContiguous(nextDate, j);
    RangesAreContiguous(nextDate, k);
    FirstOfMonthIndex(nextDate.year, nextDate.month - 1, j);
    FirstOfMonthIndex(nextDate.year, nextDate.month - 1, k);
    if PartitionName(r.from, r.to) == PartitionName(s.from, s.to) {
      NameDeterminesStart(r.from, r.to, s.from, s.to);
    }
  }

  /** The bounds handed to the database say what was planned: with four-digit years, a date lies in a
      planned range exactly if its formatted form lies between the partition's bounds, from inclusive
      and to exclusive; and each partition's upper bound is the next one's lower bound. */
  lemma BoundsDelimitTheRange(nextDate: Date, k: nat, d: Date)
    requires ValidDate(nextDate) && ValidDate(d) && 1000 <= d.year < 10000
    requires 1000 <= nextDate.year && FirstOfMonth(nextDate.year, nextDate.month - 1, k + 1).year < 10000
    ensures var p := CreateAuditLogPartition(RangeAt(nextDate, k));
            && (Contains(RangeAt(nextDate, k), d)
                <==> !StringLess(FormatPartitionDate(d), p.from) && StringLess(FormatPartitionDate(d), p.to))
            && p.to == CreateAuditLogPartition(RangeAt(nextDate, k + 1)).from
            && (k == 0 ==> p.from == FormatPartitionDate(nextDate))
  {
    var r := RangeAt(nextDate, k);
    RangesAreContiguous(nextDate, k);
    FormattedDatesSortAsDates(d, r.from);
    FormattedDatesSortAsDates(d, r.to);
  }
}
