/** Timestamps: the server's closed-form Gregorian day count, the RFC 3339 text it writes and reads,
    and the comparison of expiry times as text and as numbers. */
module Calendar {
  import opened Sequences
  import opened Serial
  import opened Decimal

  // ----- the closed form -----

  /** Division as in C: the quotient is cut off toward zero. */
  function CDiv(a: int, b: int): int
    requires b > 0
  {
    if a >= 0 then a / b else -((-a) / b)
  }

  function DaysSinceUnixEpoch(year: int, month: int, day: int): int
    requires 1 <= month <= 12
  {
    var shiftedMonth := month + (if month > 2 then -3 else 9);
    var y := year - (if month <= 2 then 1 else 0);
    var era := CDiv(if y >= 0 then y else y - 399, 400);
    var yearOfEra := y - era * 400;
    var dayOfYear := (153 * shiftedMonth + 2) / 5 + day - 1;
    var dayOfEra := yearOfEra * 365 + yearOfEra / 4 - yearOfEra / 100 + dayOfYear;
    era * 146097 + dayOfEra - 719468
  }

  // ----- the naive count -----

  predicate IsLeap(year: int) {
    year % 4 == 0 && (year % 100 != 0 || year % 400 == 0)
  }

  function MonthLength(year: int, month: int): (n: nat)
    requires 1 <= month <= 12
    ensures 28 <= n <= 31
  {
    if month == 2 then (if IsLeap(year) then 29 else 28)
    else if month == 4 || month == 6 || month == 9 || month == 11 then 30
    else 31
  }

  function YearLength(year: int): nat {
    if IsLeap(year) then 366 else 365
  }

  /** Days from the first of January 1970 to that of a year, counted year by year. */
  function YearStart(year: int): int
    decreases if year >= 1970 then year - 1970 else 1970 - year
  {
    if year == 1970 then 0
    else if year > 1970 then YearStart(year - 1) + YearLength(year - 1)
    else YearStart(year + 1) - YearLength(year)
  }

  /** Days of a year before a month, counted month by month. */
  function MonthStart(year: int, month: int): nat
    requires 1 <= month <= 12
  {
    if month == 1 then 0 else MonthStart(year, month - 1) + MonthLength(year, month - 1)
  }

  datatype Date = Date(year: int, month: int, day: int)

  predicate IsDate(d: Date) {
    1 <= d.month <= 12 && 1 <= d.day <= MonthLength(d.year, d.month)
  }

  function DayNumber(d: Date): int
    requires 1 <= d.month <= 12
  {
    YearStart(d.year) + MonthStart(d.year, d.month) + d.day - 1
  }

  function NextDay(d: Date): Date
    requires IsDate(d)
  {
    if d.day < MonthLength(d.year, d.month) then d.(day := d.day + 1)
    else if d.month < 12 then Date(d.year, d.month + 1, 1)
    else Date(d.year + 1, 1, 1)
  }

  lemma FloorByEra(y: int)
    ensures var era := CDiv(if y >= 0 then y else y - 399, 400);
            era == y / 400 && 0 <= y - era * 400 < 400
  {
  }

  /** The part of the closed form that depends on the March-based year. */
  lemma YearPart(y: int)
    ensures var era := CDiv(if y >= 0 then y else y - 399, 400);
            var yearOfEra := y - era * 400;
            era * 146097 + yearOfEra * 365 + yearOfEra / 4 - yearOfEra / 100
            == 365 * y + y / 4 - y / 100 + y / 400
  {
    FloorByEra(y);
    var era := y / 400;
    var yearOfEra := y - era * 400;
    assert y / 4 == era * 100 + yearOfEra / 4;
    assert y / 100 == era * 4 + yearOfEra / 100;
  }

  lemma ClosedForm(year: int, month: int, day: int)
    requires 1 <= month <= 12
    ensures var y := if month <= 2 then year - 1 else year;
            DaysSinceUnixEpoch(year, month, day) ==
            365 * y + y / 4 - y / 100 + y / 400
            + MarchBased(month) + day - 1 - 719468
  {
    YearPart(if month <= 2 then year - 1 else year);
  }

  lemma FloorSteps(y: int)
    ensures y / 4 == (y - 1) / 4 + (if y % 4 == 0 then 1 else 0)
    ensures y / 100 == (y - 1) / 100 + (if y % 100 == 0 then 1 else 0)
    ensures y / 400 == (y - 1) / 400 + (if y % 400 == 0 then 1 else 0)
  {
  }

  lemma LeapDays(year: int)
    ensures year / 4 - year / 100 + year / 400
            == (year - 1) / 4 - (year - 1) / 100 + (year - 1) / 400 + (if IsLeap(year) then 1 else 0)
  {
    FloorSteps(year);
    CenturiesAreFourths(year);
  }

  lemma CenturiesAreFourths(year: int)
    ensures year % 400 == 0 ==> year % 100 == 0
    ensures year % 100 == 0 ==> year % 4 == 0
  {
    if year % 400 == 0 {
      MultipleDivides(100, 4, year / 400);
    }
    if year % 100 == 0 {
      MultipleDivides(4, 25, year / 100);
    }
  }

  lemma MultipleDivides(d: nat, m: nat, k: int)
    requires d > 0
    ensures (d * m * k) % d == 0
  {
    var n := d * m * k;
    assert n == d * (m * k);
    QuotientUnique(d, n / d, n % d, m * k, 0);
  }

  /** Day of the March-based year on which a month begins. */
  function MarchBased(month: int): int {
    (153 * (if month > 2 then month - 3 else month + 9) + 2) / 5
  }

  lemma MarchBasedStep(year: int, month: int)
    requires 1 <= month < 12
    ensures month != 2 ==> MarchBased(month + 1) == MarchBased(month) + MonthLength(year, month)
    ensures MarchBased(3) == 0 && MarchBased(2) == 337
  {
  }

  lemma MonthStep(year: int, month: int)
    requires 1 <= month < 12
    ensures DaysSinceUnixEpoch(year, month + 1, 1) ==
            DaysSinceUnixEpoch(year, month, 1) + MonthLength(year, month)
  {
    hide DaysSinceUnixEpoch, MarchBased;
    ClosedForm(year, month, 1);
    ClosedForm(year, month + 1, 1);
    MarchBasedStep(year, month);
    if month == 2 {
      hide IsLeap;
      LeapDays(year);
    }
  }

  lemma YearStep(year: int)
    ensures DaysSinceUnixEpoch(year + 1, 1, 1) == DaysSinceUnixEpoch(year, 1, 1) + YearLength(year)
  {
    ClosedForm(year, 1, 1);
    ClosedForm(year + 1, 1, 1);
    LeapDays(year);
  }

  lemma {:induction false} ClosedYearStart(year: int)
    ensures DaysSinceUnixEpoch(year, 1, 1) == YearStart(year)
    decreases if year >= 1970 then year - 1970 else 1970 - year
  {
    if year > 1970 {
      ClosedYearStart(year - 1);
      YearStep(year - 1);
    } else if year < 1970 {
      ClosedYearStart(year + 1);
      YearStep(year);
    }
  }

  lemma {:induction false} ClosedMonthStart(year: int, month: int)
    requires 1 <= month <= 12
    ensures DaysSinceUnixEpoch(year, month, 1) == YearStart(year) + MonthStart(year, month)
  {
    if month == 1 {
      ClosedYearStart(year);
    } else {
      ClosedMonthStart(year, month - 1);
      MonthStep(year, month - 1);
    }
  }

  /** For every date, before and after 1970, the closed form is the naive count of leap years and
      month lengths. */
  lemma ClosedFormCountsDays(d: Date)
    requires 1 <= d.month <= 12
    ensures DaysSinceUnixEpoch(d.year, d.month, d.day) == DayNumber(d)
  {
    ClosedMonthStart(d.year, d.month);
    ClosedForm(d.year, d.month, 1);
    ClosedForm(d.year, d.month, d.day);
  }

  lemma {:induction false} MonthsFillTheYear(year: int)
    ensures MonthStart(year, 12) + 31 == YearLength(year)
  {
    assert MonthStart(year, 1) == 0 && MonthStart(year, 2) == 31;
    assert MonthStart(year, 3) == 31 + MonthLength(year, 2);
    assert MonthStart(year, 5) == MonthStart(year, 3) + 61;
    assert MonthStart(year, 7) == MonthStart(year, 5) + 61;
    assert MonthStart(year, 9) == MonthStart(year, 7) + 62;
    assert MonthStart(year, 11) == MonthStart(year, 9) + 61;
  }

  lemma NextYearStart(year: int)
    ensures YearStart(year + 1) == YearStart(year) + YearLength(year)
  {
    hide YearLength;
  }

  lemma NextMonthStart(year: int, month: int)
    requires 1 <= month < 12
    ensures MonthStart(year, month + 1) == MonthStart(year, month) + MonthLength(year, month)
    ensures MonthStart(year, 1) == 0
  {
    hide MonthLength;
  }

  lemma NextDayIsOneMore(d: Date)
    requires IsDate(d)
    ensures IsDate(NextDay(d)) && DayNumber(NextDay(d)) == DayNumber(d) + 1
  {
    hide YearStart, MonthStart, YearLength, IsLeap;
    NextMonthStart(d.year, if d.month < 12 then d.month else 1);
    if d.day == MonthLength(d.year, d.month) && d.month == 12 {
      MonthsFillTheYear(d.year);
      NextMonthStart(d.year + 1, 1);
      NextYearStart(d.year);
    }
  }

  // ----- broken-down time -----

  /** The year that holds a day, counted off year by year, and the day's place in it. */
  function YearOf(year: int, days: nat): (r: (int, nat))
    ensures r.0 >= year && r.1 < YearLength(r.0)
    decreases days
  {
    if days < YearLength(year) then (year, days) else YearOf(year + 1, days - YearLength(year))
  }

  function MonthOf(year: int, month: int, days: nat): (r: (int, nat))
    requires 1 <= month <= 12
    requires days < YearLength(year) - MonthStart(year, month)
    ensures 1 <= r.0 <= 12 && r.1 < MonthLength(year, r.0)
    ensures MonthStart(year, r.0) + r.1 == MonthStart(year, month) + days
    decreases 12 - month
  {
    MonthsFillTheYear(year);
    if days < MonthLength(year, month) then (month, days)
    else MonthOf(year, month + 1, days - MonthLength(year, month))
  }

  /** The date of a day counted from the epoch, as the C library's broken-down time gives it. */
  function DateOf(days: nat): Date {
    var (year, dayOfYear) := YearOf(1970, days);
    var (month, dayOfMonth) := MonthOf(year, 1, dayOfYear);
    Date(year, month, dayOfMonth + 1)
  }

  lemma {:induction false} YearOfCounts(year: int, days: nat)
    requires year >= 1970
    ensures YearStart(YearOf(year, days).0) + YearOf(year, days).1 == YearStart(year) + days
    decreases days
  {
    if days >= YearLength(year) {
      YearOfCounts(year + 1, days - YearLength(year));
    }
  }

  lemma DateOfIsDate(days: nat)
    ensures IsDate(DateOf(days)) && DateOf(days).year >= 1970
    ensures DayNumber(DateOf(days)) == days
  {
    YearOfCounts(1970, days);
  }

  // ----- order of dates -----

  lemma {:induction false} LaterYearsStartLater(a: int, b: int)
    requires a < b
    ensures YearStart(a) + YearLength(a) <= YearStart(b)
    decreases b - a
  {
    hide YearStart, YearLength;
    NextYearStart(b - 1);
    if a < b - 1 {
      LaterYearsStartLater(a, b - 1);
    }
  }

  lemma {:induction false} LaterMonthsStartLater(year: int, a: int, b: int)
    requires 1 <= a < b <= 12
    ensures MonthStart(year, a) + MonthLength(year, a) <= MonthStart(year, b)
    decreases b - a
  {
    if a < b - 1 {
      LaterMonthsStartLater(year, a, b - 1);
    }
  }

  lemma DaysFitTheYear(d: Date)
    requires IsDate(d)
    ensures MonthStart(d.year, d.month) + d.day <= YearLength(d.year)
  {
    hide MonthStart, YearLength, IsLeap;
    MonthsFillTheYear(d.year);
    if d.month < 12 {
      LaterMonthsStartLater(d.year, d.month, 12);
    }
  }

  predicate IsEarlier(a: Date, b: Date) {
    a.year < b.year || (a.year == b.year &&
      (a.month < b.month || (a.month == b.month && a.day < b.day)))
  }

  lemma EarlierDatesHaveSmallerNumbers(a: Date, b: Date)
    requires IsDate(a) && IsDate(b) && IsEarlier(a, b)
    ensures DayNumber(a) < DayNumber(b)
  {
    hide YearStart, MonthStart, MonthLength, YearLength;
    if a.year < b.year {
      LaterYearsStartLater(a.year, b.year);
      DaysFitTheYear(a);
    } else if a.month < b.month {
      LaterMonthsStartLater(a.year, a.month, b.month);
    }
  }

  /** A day number belongs to one date only, so broken-down time undoes the day count. */
  lemma DateOfDayNumber(d: Date)
    requires IsDate(d) && DayNumber(d) >= 0
    ensures DateOf(DayNumber(d)) == d
  {
    var e := DateOf(DayNumber(d));
    DateOfIsDate(DayNumber(d));
    if IsEarlier(d, e) {
      EarlierDatesHaveSmallerNumbers(d, e);
    } else if IsEarlier(e, d) {
      EarlierDatesHaveSmallerNumbers(e, d);
    }
  }

  // ----- text -----

  const SECONDS_PER_DAY: nat := 86400

  /** The RFC 3339 form, section 5.6, that strftime is asked for. */
  function DateTimeText(d: Date, hour: nat, minute: nat, second: nat): string
    requires d.year >= 0 && 0 <= d.month < 100 && 0 <= d.day < 100
    requires hour < 100 && minute < 100 && second < 100
  {
    Digits(d.year) + ("-" + (TwoDigits(d.month) + ("-" + (TwoDigits(d.day) + ("T" +
      (TwoDigits(hour) + (":" + (TwoDigits(minute) + (":" + (TwoDigits(second) + "Z"))))))))))
  }

  function FormatUtcTime(timestamp: nat): string {
    DateOfIsDate(timestamp / SECONDS_PER_DAY);
    var inDay := timestamp % SECONDS_PER_DAY;
    DateTimeText(DateOf(timestamp / SECONDS_PER_DAY), inDay / 3600, inDay / 60 % 60, inDay % 60)
  }

  /** One integer conversion of the scanner: white space, a sign if any, and at least one digit. */
  function ScanInt(text: string): Option<(int, string)> {
    var text := SkipSpace(text);
    var negative := text != [] && text[0] == '-';
    var text := if text != [] && (text[0] == '-' || text[0] == '+') then text[1..] else text;
    if text == [] || !IsDigit(text[0]) then None
    else
      var (value, rest) := ScanDigits(0, text);
      var magnitude: int := value;
      Some((if negative then -magnitude else magnitude, rest))
  }

  /** A literal character of the scanner's pattern. */
  function ScanChar(scanned: Option<(int, string)>, c: char): Option<(int, string)> {
    if scanned.Some? && scanned.value.1 != [] && scanned.value.1[0] == c
    then Some((scanned.value.0, scanned.value.1[1..])) else None
  }

  /** The six numbers of a timestamp; a missing final Z, or anything after the seconds, is not
      noticed. */
  function ScanFields(text: string): Option<seq<int>> {
    var year := ScanChar(ScanInt(text), '-');
    if year.None? then None else
    var month := ScanChar(ScanInt(year.value.1), '-');
    if month.None? then None else
    var day := ScanChar(ScanInt(month.value.1), 'T');
    if day.None? then None else
    var hour := ScanChar(ScanInt(day.value.1), ':');
    if hour.None? then None else
    var minute := ScanChar(ScanInt(hour.value.1), ':');
    if minute.None? then None else
    var second := ScanInt(minute.value.1);
    if second.None? then None else
    Some([year.value.0, month.value.0, day.value.0, hour.value.0, minute.value.0, second.value.0])
  }

  predicate FieldsInRange(f: seq<int>)
    requires |f| == 6
  {
    && 1 <= f[1] <= 12 && 1 <= f[2] <= 31 && 0 <= f[3] <= 23 && 0 <= f[4] <= 59 && 0 <= f[5] <= 60
  }

  function SecondsOf(f: seq<int>): int
    requires |f| == 6 && FieldsInRange(f)
  {
    DaysSinceUnixEpoch(f[0], f[1], f[2]) * SECONDS_PER_DAY + f[3] * 3600 + f[4] * 60 + f[5]
  }

  function ParseUtcTime(text: string): Option<nat> {
    var fields := ScanFields(text);
    if fields.None? || |fields.value| != 6 || !FieldsInRange(fields.value) then None
    else
      var seconds := SecondsOf(fields.value);
      if seconds < 0 then None else Some(seconds)
  }

  lemma ScanIntOfDigits(text: string, n: nat, rest: string, c: char)
    requires text != [] && IsDigit(text[0])
    requires ScanDigits(0, text) == ScanDigits(n, rest)
    requires rest != [] && rest[0] == c && !IsDigit(c)
    ensures ScanInt(text) == Some((n, rest))
    ensures ScanChar(ScanInt(text), c) == Some((n, rest[1..]))
  {
    assert SkipSpace(text) == text;
  }

  /** Scanning a printed timestamp finds the numbers that were printed. */
  lemma ScanPrintedFields(d: Date, hour: nat, minute: nat, second: nat)
    requires d.year >= 0 && 0 <= d.month < 100 && 0 <= d.day < 100
    requires hour < 100 && minute < 100 && second < 100
    ensures ScanFields(DateTimeText(d, hour, minute, second)) ==
            Some([d.year, d.month, d.day, hour, minute, second])
  {
    hide Digits, TwoDigits, ScanDigits, ScanInt, ScanChar;
    var atSecond := TwoDigits(second) + "Z";
    var atMinute := TwoDigits(minute) + (":" + atSecond);
    var atHour := TwoDigits(hour) + (":" + atMinute);
    var atDay := TwoDigits(d.day) + ("T" + atHour);
    var atMonth := TwoDigits(d.month) + ("-" + atDay);
    var atYear := Digits(d.year) + ("-" + atMonth);
    assert DateTimeText(d, hour, minute, second) == atYear;
    ScanPrinted(d.year, "-" + atMonth);
    ScanTwoDigits(d.month, "-" + atDay);
    ScanTwoDigits(d.day, "T" + atHour);
    ScanTwoDigits(hour, ":" + atMinute);
    ScanTwoDigits(minute, ":" + atSecond);
    ScanTwoDigits(second, "Z");
    ScanIntOfDigits(atYear, d.year, "-" + atMonth, '-');
    ScanIntOfDigits(atMonth, d.month, "-" + atDay, '-');
    ScanIntOfDigits(atDay, d.day, "T" + atHour, 'T');
    ScanIntOfDigits(atHour, hour, ":" + atMinute, ':');
    ScanIntOfDigits(atMinute, minute, ":" + atSecond, ':');
    ScanIntOfDigits(atSecond, second, "Z", 'Z');
    assert ("-" + atMonth)[1..] == atMonth && ("-" + atDay)[1..] == atDay;
    assert ("T" + atHour)[1..] == atHour && (":" + atMinute)[1..] == atMinute;
    assert (":" + atSecond)[1..] == atSecond;
  }

  /** Reading a written timestamp gives the moment back. */
  lemma ParsingInvertsFormatting(timestamp: nat)
    ensures ParseUtcTime(FormatUtcTime(timestamp)) == Some(timestamp)
  {
    hide DateOf, DateTimeText, ParseUtcTime, DayNumber;
    var days, inDay := timestamp / SECONDS_PER_DAY, timestamp % SECONDS_PER_DAY;
    DateOfIsDate(days);
    TimeOfDay(inDay);
    PaddedTextIsRead(DateOf(days), inDay / 3600, inDay / 60 % 60, inDay % 60);
  }

  /** A padded text with fields in the accepted ranges is read as the naive count of its fields. */
  lemma PaddedTextIsRead(d: Date, hour: nat, minute: nat, second: nat)
    requires d.year >= 1970 && 1 <= d.month <= 12 && 1 <= d.day <= 31
    requires hour <= 23 && minute <= 59 && second <= 60
    ensures ParseUtcTime(DateTimeText(d, hour, minute, second)) ==
            Some(DayNumber(d) * SECONDS_PER_DAY + hour * 3600 + minute * 60 + second)
  {
    hide DateTimeText, ScanFields, DaysSinceUnixEpoch, YearStart, MonthStart;
    ScanPrintedFields(d, hour, minute, second);
    ClosedFormCountsDays(d);
    EpochYearsAreNonnegative(d.year);
  }

  /** A padded text with fields in the accepted ranges is written back unchanged exactly when its day
      exists in its month and its second is not a leap second: the reader checks neither. */
  lemma PaddedTextIsWrittenBack(d: Date, hour: nat, minute: nat, second: nat)
    requires d.year >= 1970 && 1 <= d.month <= 12 && 1 <= d.day <= 31
    requires hour <= 23 && minute <= 59 && second <= 60
    ensures var text := DateTimeText(d, hour, minute, second);
            && ParseUtcTime(text).Some?
            && (FormatUtcTime(ParseUtcTime(text).value) == text <==> IsDate(d) && second <= 59)
  {
    hide DateOf, DateTimeText, ParseUtcTime, DayNumber, ScanFields;
    var text := DateTimeText(d, hour, minute, second);
    PaddedTextIsRead(d, hour, minute, second);
    ScanPrintedFields(d, hour, minute, second);
    var t := ParseUtcTime(text).value;
    if IsDate(d) && second <= 59 {
      SplitSeconds(DayNumber(d), hour, minute, second);
      DateOfDayNumber(d);
    } else {
      var inDay := t % SECONDS_PER_DAY;
      var e := DateOf(t / SECONDS_PER_DAY);
      DateOfIsDate(t / SECONDS_PER_DAY);
      ScanPrintedFields(e, inDay / 3600, inDay / 60 % 60, inDay % 60);
    }
  }

  /** The text of an existing second from 1970 on, every field but the year in two digits. */
  ghost predicate IsCanonical(text: string) {
    exists d: Date, hour: nat, minute: nat, second: nat ::
      && d.year >= 1970 && IsDate(d) && hour <= 23 && minute <= 59 && second <= 59
      && text == DateTimeText(d, hour, minute, second)
  }

  lemma WrittenTextIsCanonical(timestamp: nat)
    ensures IsCanonical(FormatUtcTime(timestamp))
  {
    hide DateOf, DateTimeText;
    var inDay := timestamp % SECONDS_PER_DAY;
    DateOfIsDate(timestamp / SECONDS_PER_DAY);
    TimeOfDay(inDay);
    assert FormatUtcTime(timestamp) == DateTimeText(DateOf(timestamp / SECONDS_PER_DAY),
                                                    inDay / 3600, inDay / 60 % 60, inDay % 60);
  }

  /** Of all the texts the reader accepts, with missing digits, leading blanks, signs, days that do
      not exist, leap seconds, no Z or anything behind it, exactly the canonical ones are written
      back unchanged; and a canonical one is always accepted. */
  lemma FormattingInvertsParsing(text: string)
    ensures ParseUtcTime(text).Some? && FormatUtcTime(ParseUtcTime(text).value) == text <==>
              IsCanonical(text)
  {
    hide FormatUtcTime, ParseUtcTime, DateTimeText;
    if ParseUtcTime(text).Some? {
      WrittenTextIsCanonical(ParseUtcTime(text).value);
    }
    if IsCanonical(text) {
      var d: Date, hour: nat, minute: nat, second: nat :|
        && d.year >= 1970 && IsDate(d) && hour <= 23 && minute <= 59 && second <= 59
        && text == DateTimeText(d, hour, minute, second);
      PaddedTextIsWrittenBack(d, hour, minute, second);
    }
  }

  lemma {:induction false} EpochYearsAreNonnegative(year: int)
    requires year >= 1970
    ensures YearStart(year) >= 0
    decreases year
  {
    if year > 1970 {
      EpochYearsAreNonnegative(year - 1);
    }
  }

  lemma SplitSeconds(days: nat, hour: nat, minute: nat, second: nat)
    requires hour <= 23 && minute <= 59 && second <= 59
    ensures var t := days * SECONDS_PER_DAY + hour * 3600 + minute * 60 + second;
            && t / SECONDS_PER_DAY == days
            && t % SECONDS_PER_DAY == hour * 3600 + minute * 60 + second
            && (hour * 3600 + minute * 60 + second) / 3600 == hour
            && (hour * 3600 + minute * 60 + second) / 60 % 60 == minute
            && (hour * 3600 + minute * 60 + second) % 60 == second
  {
    assert (hour * 3600 + minute * 60 + second) / 60 == hour * 60 + minute;
  }

  // ----- comparing expiry times -----

  /** The last second of the year 9999. */
  const LAST_FOUR_DIGIT_SECOND: nat := 253402300799

  lemma TwoCharOrder(p: char, q: char, p': char, q': char)
    ensures TextLess([p, q], [p', q']) <==> p < p' || (p == p' && q < q')
  {
    assert [p, q][1..] == [q] && [p', q'][1..] == [q'];
    assert [q][1..] == [] && [q'][1..] == [];
    assert !TextLess([], []);
    assert TextLess([q], [q']) <==> q < q';
  }

  lemma TwoDigitOrder(a: nat, b: nat)
    requires a < 100 && b < 100
    ensures TextLess(TwoDigits(a), TwoDigits(b)) <==> a < b
    ensures TwoDigits(a) == TwoDigits(b) <==> a == b
  {
    hide TextLess;
    TwoCharOrder(DigitChar(a / 10), DigitChar(a % 10), DigitChar(b / 10), DigitChar(b % 10));
    assert TwoDigits(a)[0] == DigitChar(a / 10) && TwoDigits(a)[1] == DigitChar(a % 10);
    assert TwoDigits(b)[0] == DigitChar(b / 10) && TwoDigits(b)[1] == DigitChar(b % 10);
  }

  lemma TwoDigitsOf(high: nat, low: nat)
    requires high < 10 && low < 10
    ensures TwoDigits(10 * high + low) == [DigitChar(high), DigitChar(low)]
  {
  }

  lemma FourDigits(n: nat)
    requires 1000 <= n < 10000
    ensures Digits(n) == TwoDigits(n / 100) + TwoDigits(n % 100)
  {
    hide Digits, TwoDigits;
    var top, bottom := n / 100, n % 100;
    var a, b, c, d := top / 10, top % 10, bottom / 10, bottom % 10;
    assert n == 10 * (10 * top + c) + d && top == 10 * a + b && bottom == 10 * c + d;
    DigitsStep(a, b);
    DigitsStep(top, c);
    DigitsStep(10 * top + c, d);
    TwoDigitsOf(a, b);
    TwoDigitsOf(c, d);
  }

  lemma DigitsStep(high: nat, low: nat)
    requires high > 0 && low < 10
    ensures Digits(10 * high + low) == Digits(high) + [DigitChar(low)]
    ensures high < 10 ==> Digits(high) == [DigitChar(high)]
  {
    assert (10 * high + low) / 10 == high;
  }

  /** The seven two-digit groups of a timestamp, most significant first. */
  function Groups(timestamp: nat): (g: seq<nat>)
    ensures |g| == 7
  {
    var d, inDay := DateOf(timestamp / SECONDS_PER_DAY), timestamp % SECONDS_PER_DAY;
    DateOfIsDate(timestamp / SECONDS_PER_DAY);
    [d.year / 100, d.year % 100, d.month, d.day, inDay / 3600, inDay / 60 % 60, inDay % 60]
  }

  predicate GroupsLess(a: seq<nat>, b: seq<nat>)
    requires |a| == |b|
  {
    a != [] && (a[0] < b[0] || (a[0] == b[0] && GroupsLess(a[1..], b[1..])))
  }

  /** The text of some groups, each followed by its separator. */
  function GroupText(groups: seq<nat>, separators: seq<string>): string
    requires |groups| == |separators| && forall i :: 0 <= i < |groups| ==> groups[i] < 100
  {
    if groups == [] then []
    else TwoDigits(groups[0]) + (separators[0] + GroupText(groups[1..], separators[1..]))
  }

  lemma {:induction false} GroupTextOrder(a: seq<nat>, b: seq<nat>, separators: seq<string>)
    requires |a| == |b| == |separators|
    requires forall i :: 0 <= i < |a| ==> a[i] < 100 && b[i] < 100
    ensures TextLess(GroupText(a, separators), GroupText(b, separators)) <==> GroupsLess(a, b)
  {
    if a != [] {
      hide TwoDigits;
      GroupTextOrder(a[1..], b[1..], separators[1..]);
      TwoDigitOrder(a[0], b[0]);
      var u, u' := GroupText(a[1..], separators[1..]), GroupText(b[1..], separators[1..]);
      FieldOrder(separators[0], separators[0], u, u');
      NotLessThanItself(separators[0]);
      FieldOrder(TwoDigits(a[0]), TwoDigits(b[0]), separators[0] + u, separators[0] + u');
    }
  }

  const SEPARATORS := ["", "-", "-", "T", ":", ":", "Z"]

  /** Up to the year 9999 the text is the seven groups with fixed separators. */
  lemma TextIsGroups(timestamp: nat)
    requires timestamp <= LAST_FOUR_DIGIT_SECOND
    ensures forall i :: 0 <= i < 7 ==> Groups(timestamp)[i] < 100
    ensures FormatUtcTime(timestamp) == GroupText(Groups(timestamp), SEPARATORS)
  {
    hide DateOf, Digits, TwoDigits;
    var d := DateOf(timestamp / SECONDS_PER_DAY);
    DateOfIsDate(timestamp / SECONDS_PER_DAY);
    FourDigitYear(d);
    FourDigits(d.year);
    SevenGroups(Groups(timestamp));
  }

  /** The text of the groups from the k-th on. */
  function GroupsFrom(g: seq<nat>, k: nat): string
    requires |g| == 7 && k <= 7 && forall i :: 0 <= i < 7 ==> g[i] < 100
  {
    GroupText(g[k..], SEPARATORS[k..])
  }

  lemma GroupStep(g: seq<nat>, k: nat, separator: string)
    requires |g| == 7 && k < 7 && forall i :: 0 <= i < 7 ==> g[i] < 100
    requires separator == SEPARATORS[k]
    ensures GroupsFrom(g, k) == TwoDigits(g[k]) + (separator + GroupsFrom(g, k + 1))
  {
    assert g[k..][1..] == g[k + 1..] && SEPARATORS[k..][1..] == SEPARATORS[k + 1..];
  }

  lemma GroupEnds(g: seq<nat>)
    requires |g| == 7 && forall i :: 0 <= i < 7 ==> g[i] < 100
    ensures GroupsFrom(g, 0) == GroupText(g, SEPARATORS)
    ensures GroupsFrom(g, 7) == ""
  {
    assert g[0..] == g && SEPARATORS[0..] == SEPARATORS;
  }

  lemma SevenGroups(g: seq<nat>)
    requires |g| == 7 && forall i :: 0 <= i < 7 ==> g[i] < 100
    ensures GroupText(g, SEPARATORS) ==
            TwoDigits(g[0]) + (TwoDigits(g[1]) + ("-" + (TwoDigits(g[2]) + ("-" + (TwoDigits(g[3]) +
              ("T" + (TwoDigits(g[4]) + (":" + (TwoDigits(g[5]) + (":" + (TwoDigits(g[6]) +
                "Z")))))))))))
  {
    hide GroupText, GroupsFrom, TwoDigits;
    GroupEnds(g);
    GroupStep(g, 0, "");
    GroupStep(g, 1, "-");
    GroupStep(g, 2, "-");
    GroupStep(g, 3, "T");
    GroupStep(g, 4, ":");
    GroupStep(g, 5, ":");
    GroupStep(g, 6, "Z");
    assert "" + GroupsFrom(g, 1) == GroupsFrom(g, 1);
    assert "Z" + "" == "Z";
  }

  lemma FourDigitYear(d: Date)
    requires IsDate(d) && 0 <= DayNumber(d) <= LAST_FOUR_DIGIT_SECOND / SECONDS_PER_DAY
    requires d.year >= 1970
    ensures d.year <= 9999
  {
    if d.year > 9999 {
      ClosedYearStart(10000);
      assert DaysSinceUnixEpoch(10000, 1, 1) == 2932897;
      if d.year > 10000 {
        LaterYearsStartLater(10000, d.year);
      }
    }
  }

  lemma LessStep(a: seq<nat>, b: seq<nat>, k: nat)
    requires |a| == |b| && k < |a|
    ensures GroupsLess(a[k..], b[k..]) <==>
            a[k] < b[k] || (a[k] == b[k] && GroupsLess(a[k + 1..], b[k + 1..]))
  {
    assert a[k..][1..] == a[k + 1..] && b[k..][1..] == b[k + 1..];
  }

  lemma SevenLess(a: seq<nat>, b: seq<nat>)
    requires |a| == |b| == 7
    ensures GroupsLess(a, b) <==>
            a[0] < b[0] || (a[0] == b[0] && (a[1] < b[1] || (a[1] == b[1] &&
            (a[2] < b[2] || (a[2] == b[2] && (a[3] < b[3] || (a[3] == b[3] &&
            (a[4] < b[4] || (a[4] == b[4] && (a[5] < b[5] || (a[5] == b[5] && a[6] < b[6])))))))))))
  {
    hide GroupsLess;
    assert a[0..] == a && b[0..] == b;
    LessStep(a, b, 0);
    LessStep(a, b, 1);
    LessStep(a, b, 2);
    LastFourLess(a, b);
  }

  lemma LastFourLess(a: seq<nat>, b: seq<nat>)
    requires |a| == |b| == 7
    ensures GroupsLess(a[3..], b[3..]) <==>
            a[3] < b[3] || (a[3] == b[3] && (a[4] < b[4] || (a[4] == b[4] &&
            (a[5] < b[5] || (a[5] == b[5] && a[6] < b[6])))))
  {
    hide GroupsLess;
    LessStep(a, b, 3);
    LessStep(a, b, 4);
    LessStep(a, b, 5);
    LessStep(a, b, 6);
    NothingIsLess(a[7..], b[7..]);
  }

  lemma NothingIsLess(a: seq<nat>, b: seq<nat>)
    requires a == [] && b == []
    ensures !GroupsLess(a, b)
  {
  }

  /** Broken-down times in order are times in order. */
  lemma GroupsOrder(a: nat, b: nat)
    ensures GroupsLess(Groups(a), Groups(b)) ==> a < b
    ensures Groups(a) == Groups(b) ==> a == b
  {
    hide DateOf, GroupsLess, DayNumber;
    var d, e := DateOf(a / SECONDS_PER_DAY), DateOf(b / SECONDS_PER_DAY);
    DateOfIsDate(a / SECONDS_PER_DAY);
    DateOfIsDate(b / SECONDS_PER_DAY);
    SevenLess(Groups(a), Groups(b));
    if IsEarlier(d, e) {
      EarlierDatesHaveSmallerNumbers(d, e);
    }
    TimeOfDay(a % SECONDS_PER_DAY);
    TimeOfDay(b % SECONDS_PER_DAY);
  }

  lemma TimeOfDay(inDay: nat)
    requires inDay < SECONDS_PER_DAY
    ensures inDay == inDay / 3600 * 3600 + inDay / 60 % 60 * 60 + inDay % 60
    ensures inDay / 60 % 60 < 60 && inDay % 60 < 60
  {
    assert inDay / 60 / 60 == inDay / 3600;
  }

  /** For times up to the end of the year 9999 the text of the SQL comparison is in the order of the
      times, so the two tests of one expiry agree: the token is expired for the text test exactly
      when it is not valid for the numeric one. */
  lemma TextOrderIsTimeOrder(a: nat, b: nat)
    requires a <= LAST_FOUR_DIGIT_SECOND && b <= LAST_FOUR_DIGIT_SECOND
    ensures TextLess(FormatUtcTime(a), FormatUtcTime(b)) <==> a < b
    ensures FormatUtcTime(a) == FormatUtcTime(b) <==> a == b
  {
    hide FormatUtcTime, Groups, GroupText, TextLess;
    TextIsGroups(a);
    TextIsGroups(b);
    GroupTextOrder(Groups(a), Groups(b), SEPARATORS);
    GroupTextOrder(Groups(b), Groups(a), SEPARATORS);
    GroupsOrder(a, b);
    GroupsOrder(b, a);
    GroupsAreComparable(Groups(a), Groups(b));
    ParsingInvertsFormatting(a);
    ParsingInvertsFormatting(b);
    NotLessThanItself(FormatUtcTime(a));
  }

  lemma {:induction false} GroupsAreComparable(a: seq<nat>, b: seq<nat>)
    requires |a| == |b|
    ensures GroupsLess(a, b) || GroupsLess(b, a) || a == b
  {
    if a != [] {
      GroupsAreComparable(a[1..], b[1..]);
      assert a == [a[0]] + a[1..] && b == [b[0]] + b[1..];
    }
  }

  /** The text test of the token queries: still to come, or reached. */
  predicate ExpiresLaterAsText(expiresAt: string, now: nat) {
    TextLess(FormatUtcTime(now), expiresAt)
  }

  /** The numeric test of the session validation. */
  predicate ExpiresLaterAsNumber(expiresAt: string, now: nat) {
    ParseUtcTime(expiresAt).Some? && now < ParseUtcTime(expiresAt).value
  }

  lemma ExpiryTestsAgree(expires: nat, now: nat)
    requires expires <= LAST_FOUR_DIGIT_SECOND && now <= LAST_FOUR_DIGIT_SECOND
    ensures ExpiresLaterAsText(FormatUtcTime(expires), now) <==>
            ExpiresLaterAsNumber(FormatUtcTime(expires), now)
  {
    hide FormatUtcTime, ParseUtcTime, TextLess;
    TextOrderIsTimeOrder(now, expires);
    ParsingInvertsFormatting(expires);
  }

  /** One second later the text has a fifth digit in its year, and sorts before every text of the
      years from 2000 to 9999: the agreement ends with the year 9999. */
  lemma FiveDigitYearSortsFirst(a: nat)
    requires 946684800 <= a <= LAST_FOUR_DIGIT_SECOND
    ensures TextLess(FormatUtcTime(LAST_FOUR_DIGIT_SECOND + 1), FormatUtcTime(a))
  {
    hide FormatUtcTime, DateOf;
    var t := LAST_FOUR_DIGIT_SECOND + 1;
    var first := Date(10000, 1, 1);
    ClosedFormCountsDays(first);
    assert DaysSinceUnixEpoch(10000, 1, 1) == 2932897 == t / SECONDS_PER_DAY;
    DateOfDayNumber(first);
    assert FormatUtcTime(t)[0] == '1' by { FirstCharacter(t, 10000); }
    var d := DateOf(a / SECONDS_PER_DAY);
    DateOfIsDate(a / SECONDS_PER_DAY);
    FourDigitYear(d);
    YearAtLeast2000(d);
    FourDigits(d.year);
    assert FormatUtcTime(a)[0] == DigitChar(d.year / 1000) by { FirstCharacter(a, d.year); }
  }

  /** Text order is time order for all times up to a moment exactly when that moment is not after the
      year 9999. */
  lemma TextOrderIsTimeOrderExactlyUntil(moment: nat)
    ensures (forall a: nat, b: nat :: a <= moment && b <= moment ==>
               (TextLess(FormatUtcTime(a), FormatUtcTime(b)) <==> a < b))
            <==> moment <= LAST_FOUR_DIGIT_SECOND
  {
    hide FormatUtcTime, TextLess;
    if moment <= LAST_FOUR_DIGIT_SECOND {
      forall a: nat, b: nat | a <= moment && b <= moment
        ensures TextLess(FormatUtcTime(a), FormatUtcTime(b)) <==> a < b
      {
        TextOrderIsTimeOrder(a, b);
      }
    } else {
      var a, b := LAST_FOUR_DIGIT_SECOND + 1, LAST_FOUR_DIGIT_SECOND;
      FiveDigitYearSortsFirst(b);
      assert TextLess(FormatUtcTime(a), FormatUtcTime(b)) && !(a < b);
    }
  }

  lemma FirstCharacter(timestamp: nat, year: nat)
    requires DateOf(timestamp / SECONDS_PER_DAY).year == year
    requires 1000 <= year <= 10000
    ensures FormatUtcTime(timestamp) != []
    ensures FormatUtcTime(timestamp)[0] == if year == 10000 then '1' else DigitChar(year / 1000)
  {
    hide DateOf, Digits, TwoDigits;
    DateOfIsDate(timestamp / SECONDS_PER_DAY);
    YearHead(year);
    assert FormatUtcTime(timestamp)[0] == Digits(year)[0];
  }

  lemma YearHead(year: nat)
    requires 1000 <= year <= 10000
    ensures Digits(year)[0] == if year == 10000 then '1' else DigitChar(year / 1000)
  {
    hide Digits;
    if year == 10000 {
      DigitsStep(1000, 0);
      FourDigits(1000);
    } else {
      FourDigits(year);
    }
  }

  lemma YearAtLeast2000(d: Date)
    requires IsDate(d) && DayNumber(d) >= 946684800 / SECONDS_PER_DAY
    ensures d.year >= 2000
  {
    hide YearStart, MonthStart, MonthLength, YearLength;
    if d.year < 2000 {
      LaterYearsStartLater(d.year, 2000);
      ClosedYearStart(2000);
      DaysFitTheYear(d);
    }
  }
}
