/** Civil dates and UTC timestamps: the arithmetic of `days_from_civil` against counting
    days one by one. */
module CivilDate {
  import opened Text
  import opened Decimal

  datatype Date = Date(y: int, m: int, d: int)

  /** Rust's integer division: truncation toward zero. */
  function TruncDiv(a: int, b: int): int
    requires b > 0
  {
    if a >= 0 then a / b else -((-a) / b)
  }

  /** `days_from_civil`: the year starts in March, so the leap day is its last. */
  function DaysFromCivil(y0: int, m: int, d: int): int {
    var y := if m <= 2 then y0 - 1 else y0;
    var era := TruncDiv(if y >= 0 then y else y - 399, 400);
    var yoe := y - era * 400;
    var doy := TruncDiv(153 * (if m > 2 then m - 3 else m + 9) + 2, 5) + d - 1;
    var doe := yoe * 365 + TruncDiv(yoe, 4) - TruncDiv(yoe, 100) + doy;
    era * 146_097 + doe - 719_468
  }

  // ── The Gregorian calendar, day by day ─────────────────

  predicate IsLeap(y: int) {
    y % 4 == 0 && (y % 100 != 0 || y % 400 == 0)
  }

  function DaysInMonth(y: int, m: int): int
    requires 1 <= m <= 12
  {
    if m == 2 then (if IsLeap(y) then 29 else 28)
    else if m == 4 || m == 6 || m == 9 || m == 11 then 30
    else 31
  }

  predicate Valid(t: Date) {
    1 <= t.m <= 12 && 1 <= t.d <= DaysInMonth(t.y, t.m)
  }

  function NextDay(t: Date): (r: Date)
    requires Valid(t)
    ensures Valid(r)
  {
    if t.d < DaysInMonth(t.y, t.m) then t.(d := t.d + 1)
    else if t.m < 12 then Date(t.y, t.m + 1, 1)
    else Date(t.y + 1, 1, 1)
  }

  function Advance(t: Date, n: nat): (r: Date)
    requires Valid(t)
    ensures Valid(r)
  {
    if n == 0 then t else NextDay(Advance(t, n - 1))
  }

  function Days(t: Date): int {
    DaysFromCivil(t.y, t.m, t.d)
  }

  const EPOCH := Date(1970, 1, 1)

  /** Days before March 1 of year `y`, counted from March 1 of year 0. */
  function MarchYears(y: int): int {
    365 * y + y / 4 - y / 100 + y / 400
  }

  /** Despite truncation the era is the floor, for negative years too. */
  lemma EraIsFloor(y: int)
    ensures TruncDiv(if y >= 0 then y else y - 399, 400) == y / 400
  {
  }

  /** The 400-year split adds nothing to the plain leap-year count. */
  lemma EraSplit(y: int)
    ensures var era := y / 400;
            var yoe := y - era * 400;
            0 <= yoe < 400 && era * 146_097 + yoe * 365 + yoe / 4 - yoe / 100 == MarchYears(y)
  {
    var era := y / 400;
    var yoe := y - era * 400;
    assert y / 4 == yoe / 4 + 100 * era;
    assert y / 100 == yoe / 100 + 4 * era;
  }

  /** Day of the March year on which month `m` begins. */
  function MarchDay(m: int): int {
    (153 * (if m > 2 then m - 3 else m + 9) + 2) / 5
  }

  lemma MarchDayStep(m: int)
    requires 1 <= m <= 11 && m != 2
    ensures MarchDay(m + 1) == MarchDay(m) + if m == 4 || m == 6 || m == 9 || m == 11 then 30 else 31
  {
  }

  lemma DaysByMarchYear(y: int, m: int, d: int)
    requires 1 <= m <= 12
    ensures DaysFromCivil(y, m, d) == MarchYears(if m <= 2 then y - 1 else y) + MarchDay(m) + d - 1 - 719_468
  {
    var y' := if m <= 2 then y - 1 else y;
    EraIsFloor(y');
    EraSplit(y');
  }

  lemma MarchYearLength(y: int)
    ensures MarchYears(y) == MarchYears(y - 1) + if IsLeap(y) then 366 else 365
  {
    QuotientStep(y, 4);
    QuotientStep(y, 100);
    QuotientStep(y, 400);
    Multiples(y);
  }

  lemma Multiples(y: int)
    ensures y % 400 == 0 ==> y % 100 == 0
    ensures y % 100 == 0 ==> y % 4 == 0
  {
  }

  lemma QuotientStep(y: int, b: int)
    requires b == 4 || b == 100 || b == 400
    ensures y / b == (y - 1) / b + if y % b == 0 then 1 else 0
  {
  }

  /** Crossing a month boundary. */
  lemma MonthLength(y: int, m: int)
    requires 1 <= m <= 11
    ensures DaysFromCivil(y, m + 1, 1) == DaysFromCivil(y, m, 1) + DaysInMonth(y, m)
  {
    DaysByMarchYear(y, m, 1);
    DaysByMarchYear(y, m + 1, 1);
    if m == 2 {
      MarchYearLength(y);
    } else {
      MarchDayStep(m);
    }
  }

  lemma DayInMonth(t: Date)
    requires 1 <= t.m <= 12
    ensures Days(t) == DaysFromCivil(t.y, t.m, 1) + t.d - 1
  {
  }

  /** The next day is always exactly one more. */
  lemma NextDayIsOneMore(t: Date)
    requires Valid(t)
    ensures Days(NextDay(t)) == Days(t) + 1
  {
    DayInMonth(t);
    DayInMonth(NextDay(t));
    if t.m < 12 {
      MonthLength(t.y, t.m);
    } else {
      DaysByMarchYear(t.y, 12, 1);
      DaysByMarchYear(t.y + 1, 1, 1);
    }
  }

  lemma EpochIsZero()
    ensures Days(EPOCH) == 0
  {
  }

  lemma {:induction false} AdvanceCounts(t: Date, n: nat)
    requires Valid(t)
    ensures Days(Advance(t, n)) == Days(t) + n
  {
    if n > 0 {
      AdvanceCounts(t, n - 1);
      NextDayIsOneMore(Advance(t, n - 1));
    }
  }

  // ── Order ──────────────────────────────────────────────

  predicate Before(a: Date, b: Date) {
    a.y < b.y || (a.y == b.y && (a.m < b.m || (a.m == b.m && a.d < b.d)))
  }

  lemma {:induction false} MonthsInOrder(y: int, m: int, m': int)
    requires 1 <= m < m' <= 12
    ensures DaysFromCivil(y, m, 1) + DaysInMonth(y, m) <= DaysFromCivil(y, m', 1)
    decreases m'
  {
    MonthLength(y, m' - 1);
    if m < m' - 1 {
      MonthsInOrder(y, m, m' - 1);
    }
  }

  lemma YearsInOrder(y: int, y': int)
    requires y < y'
    ensures DaysFromCivil(y, 12, 31) < DaysFromCivil(y', 1, 1)
  {
  }

  lemma NotBeforeItsYear(t: Date)
    requires Valid(t)
    ensures DaysFromCivil(t.y, 1, 1) <= Days(t)
  {
  }

  lemma NotAfterItsYear(t: Date)
    requires Valid(t)
    ensures Days(t) <= DaysFromCivil(t.y, 12, 31)
  {
    DayInMonth(t);
    DayInMonth(Date(t.y, 12, 31));
    if t.m < 12 { MonthsInOrder(t.y, t.m, 12); }
  }

  /** Earlier dates have smaller numbers. */
  lemma BeforeIsLess(a: Date, b: Date)
    requires Valid(a) && Valid(b) && Before(a, b)
    ensures Days(a) < Days(b)
  {
    if a.y < b.y {
      NotAfterItsYear(a);
      NotBeforeItsYear(b);
      YearsInOrder(a.y, b.y);
    } else {
      DayInMonth(a);
      DayInMonth(b);
      if a.m < b.m { MonthsInOrder(a.y, a.m, b.m); }
    }
  }

  /** The number is the position in the calendar: order is preserved and reflected, and no
      two dates share a number. */
  lemma DaysAreOrdered(a: Date, b: Date)
    requires Valid(a) && Valid(b)
    ensures Before(a, b) <==> Days(a) < Days(b)
    ensures a == b <==> Days(a) == Days(b)
  {
    if Before(a, b) { BeforeIsLess(a, b); }
    if Before(b, a) { BeforeIsLess(b, a); }
  }

  /** Day-by-day counting from one valid date to a later one takes exactly the difference
      of their numbers, in every year. */
  lemma CountingAgrees(a: Date, b: Date)
    requires Valid(a) && Valid(b) && !Before(b, a)
    ensures Days(a) <= Days(b) && Advance(a, Days(b) - Days(a)) == b
  {
    DaysAreOrdered(b, a);
    AdvanceCounts(a, Days(b) - Days(a));
    DaysAreOrdered(Advance(a, Days(b) - Days(a)), b);
  }

  /** Counting from the epoch, forwards and backwards. */
  lemma CountsFromEpoch(t: Date)
    requires Valid(t)
    ensures Days(t) >= 0 ==> Advance(EPOCH, Days(t)) == t
    ensures Days(t) <= 0 ==> Advance(t, -Days(t)) == EPOCH
  {
    EpochIsZero();
    DaysAreOrdered(t, EPOCH);
    if Days(t) >= 0 { CountingAgrees(EPOCH, t); }
    if Days(t) <= 0 { CountingAgrees(t, EPOCH); }
  }

  // ── Timestamps ─────────────────────────────────────────

  datatype Stamp = Stamp(date: Date, hh: int, mi: int, ss: int)

  predicate ValidStamp(t: Stamp) {
    Valid(t.date) && 0 <= t.hh <= 23 && 0 <= t.mi <= 59 && 0 <= t.ss <= 59
  }

  predicate Earlier(a: Stamp, b: Stamp) {
    || Before(a.date, b.date)
    || (a.date == b.date && (a.hh < b.hh || (a.hh == b.hh && (a.mi < b.mi || (a.mi == b.mi && a.ss < b.ss)))))
  }

  function Seconds(t: Stamp): int {
    Days(t.date) * 86400 + t.hh * 3600 + t.mi * 60 + t.ss
  }

  lemma SecondsAreOrdered(a: Stamp, b: Stamp)
    requires ValidStamp(a) && ValidStamp(b)
    ensures Earlier(a, b) <==> Seconds(a) < Seconds(b)
  {
    DaysAreOrdered(a.date, b.date);
    DaysAreOrdered(b.date, a.date);
  }

  /** The next second of the clock. */
  function NextSecond(t: Stamp): (r: Stamp)
    requires ValidStamp(t)
    ensures ValidStamp(r)
  {
    if t.ss < 59 then t.(ss := t.ss + 1)
    else if t.mi < 59 then Stamp(t.date, t.hh, t.mi + 1, 0)
    else if t.hh < 23 then Stamp(t.date, t.hh + 1, 0, 0)
    else Stamp(NextDay(t.date), 0, 0, 0)
  }

  function SecondsBy(days: Date -> int, t: Stamp): int {
    days(t.date) * 86400 + t.hh * 3600 + t.mi * 60 + t.ss
  }

  /** If the days count on, so do the seconds. */
  lemma CountsOn(days: Date -> int, t: Stamp)
    requires ValidStamp(t) && days(NextDay(t.date)) == days(t.date) + 1
    ensures SecondsBy(days, NextSecond(t)) == SecondsBy(days, t) + 1
  {
  }

  /** The next second has the next number. */
  lemma NextSecondIsOneMore(t: Stamp)
    requires ValidStamp(t)
    ensures Seconds(NextSecond(t)) == Seconds(t) + 1
  {
    NextDayIsOneMore(t.date);
    CountsOn(Days, t);
  }

  /** Midnight of 1970-01-01 is second zero. */
  lemma EpochSecondIsZero()
    ensures Seconds(Stamp(EPOCH, 0, 0, 0)) == 0
  {
    EpochIsZero();
  }

  predicate IsTimeEnd(c: char) {
    c == '.' || c == 'Z' || c == '+'
  }

  predicate IsDash(c: char) {
    c == '-'
  }

  predicate IsColon(c: char) {
    c == ':'
  }

  predicate IsT(c: char) {
    c == 'T'
  }

  /** `parse_rfc3339_utc`: only upper bounds are checked for the time of day, fractions and
      anything after the seconds are dropped. */
  function ParseRfc3339Utc(s0: string): Option<int> {
    var s := Trim(s0);
    var cut := Fields(s, IsT);
    if |cut| < 2 then None else
    var date := Fields(cut[0], IsDash);
    FirstCut(s, IsT);
    var rest := s[|cut[0]| + 1..];
    var time := Fields(Fields(rest, IsTimeEnd)[0], IsColon);
    FromFields(date, time)
  }

  /** The pieces as numbers; missing seconds count as zero, further pieces are ignored. */
  function FromFields(date: seq<string>, time: seq<string>): Option<int> {
    if |date| < 3 || |time| < 2 then None else
    match (ParseI64(date[0]), ParseI64(date[1]), ParseI64(date[2]),
           ParseI64(time[0]), ParseI64(time[1]), ParseI64(if |time| < 3 then "0" else time[2]))
    case (Some(y), Some(m), Some(d), Some(hh), Some(mi), Some(ss)) =>
      FromNumbers(Stamp(Date(y, m, d), hh, mi, ss))
    case _ => None
  }

  function FromNumbers(t: Stamp): Option<int> {
    if !(1 <= t.date.m <= 12) || !(1 <= t.date.d <= 31) || t.hh > 23 || t.mi > 59 || t.ss > 60 then None
    else Some(Seconds(t))
  }

  /** Days up to 31 are taken in every month: those past its end count on into the next, so such a
      timestamp reads as the same instant as a real one. */
  lemma PastMonthEndCountsOn(y: int, m: int, d: int, hh: int, mi: int, ss: int)
    requires 1 <= m <= 11 && DaysInMonth(y, m) < d <= 31 && hh <= 23 && mi <= 59 && ss <= 60
    ensures var rest := d - DaysInMonth(y, m);
            && Valid(Date(y, m + 1, rest)) && !Valid(Date(y, m, d))
            && FromNumbers(Stamp(Date(y, m, d), hh, mi, ss)) == FromNumbers(Stamp(Date(y, m + 1, rest), hh, mi, ss))
            && FromNumbers(Stamp(Date(y, m, d), hh, mi, ss)).Some?
  {
    DayInMonth(Date(y, m, d));
    DayInMonth(Date(y, m + 1, d - DaysInMonth(y, m)));
    MonthLength(y, m);
  }

  // ── Text of a timestamp (section 5.6 of RFC 3339, UTC) ─

  function Pad2(n: nat): (s: string)
    requires n <= 99
    ensures |s| == 2 && AllDigits(s)
  {
    [DigitChar(n / 10), DigitChar(n % 10)]
  }

  function Pad4(n: nat): (s: string)
    requires n <= 9999
    ensures |s| == 4 && AllDigits(s)
  {
    Pad2(n / 100) + Pad2(n % 100)
  }

  lemma ParsePad2(n: nat)
    requires n <= 99
    ensures ParseI64(Pad2(n)) == Some(n)
  {
    ValuePad2("", n);
    assert "" + Pad2(n) == Pad2(n);
    ParseDigits(Pad2(n));
  }

  lemma ValuePad2(s: string, n: nat)
    requires AllDigits(s) && n <= 99
    ensures AllDigits(s + Pad2(n)) && Value(s + Pad2(n)) == Value(s) * 100 + n
  {
    ValueSnoc(s, DigitChar(n / 10));
    ValueSnoc(s + [DigitChar(n / 10)], DigitChar(n % 10));
    assert s + [DigitChar(n / 10)] + [DigitChar(n % 10)] == s + Pad2(n);
  }

  lemma ParsePad4(n: nat)
    requires n <= 9999
    ensures ParseI64(Pad4(n)) == Some(n)
  {
    ValuePad2("", n / 100);
    assert "" + Pad2(n / 100) == Pad2(n / 100);
    ValuePad2(Pad2(n / 100), n % 100);
    ParseDigits(Pad4(n));
  }

  /** What may follow the seconds and is dropped: `Z`, a fraction, or an offset with a plus sign,
      which is not added either. */
  ghost predicate DroppedTail(t: string) {
    && t != "" && (t[0] == 'Z' || t[0] == '.' || t[0] == '+') && 'T' !in t && !IsWhitespace(Last(t))
  }

  /** Numbers that fit the fields of a timestamp, real or not. */
  predicate Printable(t: Stamp) {
    && 0 <= t.date.y <= 9999 && 0 <= t.date.m <= 99 && 0 <= t.date.d <= 99
    && 0 <= t.hh <= 99 && 0 <= t.mi <= 99 && 0 <= t.ss <= 99
  }

  /** The numbers the parser takes: a leap second passes, and so does day 31 of any month. */
  ghost predicate Taken(t: Stamp) {
    1 <= t.date.m <= 12 && 1 <= t.date.d <= 31 && t.hh <= 23 && t.mi <= 59 && t.ss <= 60
  }

  function Triple(a: string, b: string, c: string, sep: char): string {
    a + ([sep] + (b + ([sep] + c)))
  }

  lemma FieldsTriple(a: string, b: string, c: string, x: char, sep: char -> bool)
    requires AllDigits(a) && AllDigits(b) && AllDigits(c) && sep(x)
    requires forall k :: IsDigit(k) ==> !sep(k)
    ensures Fields(Triple(a, b, c, x), sep) == [a, b, c]
  {
    FieldsWhole(a, sep);
    FieldsWhole(b, sep);
    FieldsWhole(c, sep);
    FieldsSeparated(b, x, c, sep);
    FieldsSeparated(a, x, b + ([x] + c), sep);
  }

  function DateText(t: Stamp): string
    requires Printable(t)
  {
    Triple(Pad4(t.date.y), Pad2(t.date.m), Pad2(t.date.d), '-')
  }

  function TimeText(t: Stamp): string
    requires Printable(t)
  {
    Triple(Pad2(t.hh), Pad2(t.mi), Pad2(t.ss), ':')
  }

  /** A time of day without seconds. */
  function ShortTimeText(t: Stamp): string
    requires Printable(t)
  {
    Pad2(t.hh) + ([':'] + Pad2(t.mi))
  }

  function Render(t: Stamp, time: string, tail: string): string
    requires Printable(t)
  {
    DateText(t) + ("T" + (time + tail))
  }

  lemma TripleChars(a: string, b: string, c: string, x: char)
    requires AllDigits(a) && AllDigits(b) && AllDigits(c)
    ensures forall i :: 0 <= i < |Triple(a, b, c, x)| ==> IsDigit(Triple(a, b, c, x)[i]) || Triple(a, b, c, x)[i] == x
  {
  }

  /** A time of day: digits and colons. */
  ghost predicate ClockText(time: string) {
    time != "" && forall i :: 0 <= i < |time| ==> IsDigit(time[i]) || time[i] == ':'
  }

  /** The date and the rest. */
  lemma CutAtT(t: Stamp, time: string, tail: string)
    requires Printable(t) && ClockText(time) && DroppedTail(tail)
    ensures Fields(Render(t, time, tail), IsT) == [DateText(t), time + tail]
  {
    TripleChars(Pad4(t.date.y), Pad2(t.date.m), Pad2(t.date.d), '-');
    FieldsWhole(DateText(t), IsT);
    assert forall i :: 0 <= i < |tail| ==> tail[i] in tail;
    FieldsWhole(time + tail, IsT);
    FieldsSeparated(DateText(t), 'T', time + tail, IsT);
  }

  /** The time of day and its end. */
  lemma CutAtEnd(time: string, tail: string)
    requires ClockText(time) && DroppedTail(tail)
    ensures Fields(time + tail, IsTimeEnd)[0] == time
  {
    FieldsWhole(time, IsTimeEnd);
    assert tail == [tail[0]] + tail[1..];
    FieldsSeparated(time, tail[0], tail[1..], IsTimeEnd);
  }

  lemma RenderedIsTrimmed(t: Stamp, time: string, tail: string)
    requires Printable(t) && DroppedTail(tail)
    ensures Trim(Render(t, time, tail)) == Render(t, time, tail)
  {
    var s := Render(t, time, tail);
    assert s[0] == DateText(t)[0] == Pad4(t.date.y)[0] && Last(s) == Last(tail);
  }

  lemma ParsedDate(t: Stamp)
    requires Printable(t)
    ensures ParseI64(Pad4(t.date.y)) == Some(t.date.y)
    ensures ParseI64(Pad2(t.date.m)) == Some(t.date.m) && ParseI64(Pad2(t.date.d)) == Some(t.date.d)
  {
    ParsePad4(t.date.y);
    ParsePad2(t.date.m);
    ParsePad2(t.date.d);
  }

  lemma ParsedTime(t: Stamp)
    requires Printable(t)
    ensures ParseI64(Pad2(t.hh)) == Some(t.hh) && ParseI64(Pad2(t.mi)) == Some(t.mi)
    ensures ParseI64(Pad2(t.ss)) == Some(t.ss) && ParseI64("0") == Some(0)
  {
    ParsePad2(t.hh);
    ParsePad2(t.mi);
    ParsePad2(t.ss);
    ValueSnoc("", '0');
    assert "" + ['0'] == "0";
    ParseDigits("0");
  }

  /** The two cuts of a rendered timestamp, put together. */
  lemma ParsedFields(t: Stamp, time: string, tail: string)
    requires Printable(t) && ClockText(time) && DroppedTail(tail)
    ensures ParseRfc3339Utc(Render(t, time, tail))
            == FromFields([Pad4(t.date.y), Pad2(t.date.m), Pad2(t.date.d)], Fields(time, IsColon))
  {
    RenderedIsTrimmed(t, time, tail);
    CutAtT(t, time, tail);
    CutAtEnd(time, tail);
    assert Render(t, time, tail)[|DateText(t)| + 1..] == time + tail;
    FieldsTriple(Pad4(t.date.y), Pad2(t.date.m), Pad2(t.date.d), '-', IsDash);
  }

  lemma TimeFields(t: Stamp)
    requires Printable(t)
    ensures ClockText(TimeText(t)) && Fields(TimeText(t), IsColon) == [Pad2(t.hh), Pad2(t.mi), Pad2(t.ss)]
  {
    TripleChars(Pad2(t.hh), Pad2(t.mi), Pad2(t.ss), ':');
    FieldsTriple(Pad2(t.hh), Pad2(t.mi), Pad2(t.ss), ':', IsColon);
  }

  /** Every timestamp in the format, of real numbers or not, parses to its seconds since the epoch
      if its numbers are taken, and not at all otherwise; what follows the seconds is dropped. */
  lemma ParseRendered(t: Stamp, tail: string)
    requires Printable(t) && DroppedTail(tail)
    ensures ParseRfc3339Utc(Render(t, TimeText(t), tail)) == if Taken(t) then Some(Seconds(t)) else None
  {
    TimeFields(t);
    ParsedFields(t, TimeText(t), tail);
    ParsedDate(t);
    ParsedTime(t);
  }

  lemma ShortTimeFields(t: Stamp)
    requires Printable(t)
    ensures ClockText(ShortTimeText(t)) && Fields(ShortTimeText(t), IsColon) == [Pad2(t.hh), Pad2(t.mi)]
  {
    var time := ShortTimeText(t);
    assert forall i :: 0 <= i < |time| ==> IsDigit(time[i]) || time[i] == ':';
    FieldsWhole(Pad2(t.hh), IsColon);
    FieldsWhole(Pad2(t.mi), IsColon);
    FieldsSeparated(Pad2(t.hh), ':', Pad2(t.mi), IsColon);
  }

  /** Without seconds they count as zero. */
  lemma ParseWithoutSeconds(t: Stamp, tail: string)
    requires Printable(t) && DroppedTail(tail)
    ensures ParseRfc3339Utc(Render(t, ShortTimeText(t), tail))
            == if Taken(t.(ss := 0)) then Some(Seconds(t.(ss := 0))) else None
  {
    ShortTimeFields(t);
    ParsedFields(t, ShortTimeText(t), tail);
    ParsedDate(t);
    ParsedTime(t);
  }

  /** A real UTC timestamp of the years the format can show. */
  predicate Real(t: Stamp) {
    ValidStamp(t) && 0 <= t.date.y <= 9999
  }

  lemma ParsedReal(t: Stamp, tail: string) returns (n: int)
    requires Real(t) && DroppedTail(tail)
    ensures ParseRfc3339Utc(Render(t, TimeText(t), tail)) == Some(n) && n == Seconds(t)
  {
    ParseRendered(t, tail);
    n := Seconds(t);
  }

  /** Hence the parsed time of real timestamps is strictly increasing. */
  lemma ParsedTimeIsOrdered(a: Stamp, ta: string, b: Stamp, tb: string)
    requires Real(a) && DroppedTail(ta) && Real(b) && DroppedTail(tb)
    ensures exists x, y :: && ParseRfc3339Utc(Render(a, TimeText(a), ta)) == Some(x)
                           && ParseRfc3339Utc(Render(b, TimeText(b), tb)) == Some(y)
                           && (Earlier(a, b) <==> x < y)
  {
    var x := ParsedReal(a, ta);
    var y := ParsedReal(b, tb);
    SecondsAreOrdered(a, b);
  }
}
