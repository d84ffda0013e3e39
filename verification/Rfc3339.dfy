/**
  Timestamps and their canonical persisted text (section 5.6 of RFC 3339, UTC,
  six fraction digits): the form the spool compares as strings.
 */
module Rfc3339 {
  import opened Common
  import opened TextOrder
  import opened Digits

  /** Nanoseconds since 1970-01-01T00:00:00Z. */
  type Timestamp = int

  const NANOS_PER_SECOND := 1_000_000_000
  const NANOS_PER_DAY := 86_400 * NANOS_PER_SECOND

  /** Days from 0000-01-01 to 1970-01-01. */
  const EPOCH_DAY := 719_528

  datatype Civil = Civil(year: int, month: nat, day: nat, hour: nat, minute: nat, second: nat, micros: nat)

  predicate IsLeap(y: int) {
    y % 4 == 0 && (y % 100 != 0 || y % 400 == 0)
  }

  function DaysIn(y: int): nat {
    if IsLeap(y) then 366 else 365
  }

  /** Days from 0000-01-01 to the first day of year y. */
  function DaysBeforeYear(y: int): int {
    365 * y + (y + 3) / 4 - (y + 99) / 100 + (y + 399) / 400
  }

  lemma YearLength(y: int)
    ensures DaysBeforeYear(y + 1) == DaysBeforeYear(y) + DaysIn(y)
  {
    CenturiesNest(y);
    assert (y + 4) / 4 == (y + 3) / 4 + if y % 4 == 0 then 1 else 0;
    assert (y + 100) / 100 == (y + 99) / 100 + if y % 100 == 0 then 1 else 0;
    assert (y + 400) / 400 == (y + 399) / 400 + if y % 400 == 0 then 1 else 0;
  }

  lemma CenturiesNest(y: int)
    ensures y % 400 == 0 ==> y % 100 == 0
    ensures y % 100 == 0 ==> y % 4 == 0
  {
    MultipleOf(100, 4 * (y / 400));
    MultipleOf(4, 25 * (y / 100));
    assert y == 400 * (y / 400) + y % 400 && y == 100 * (y / 100) + y % 100;
    assert y % 400 == 0 ==> y == 100 * (4 * (y / 400));
    assert y % 100 == 0 ==> y == 4 * (25 * (y / 100));
  }

  lemma MultipleOf(k: int, n: int)
    requires k == 4 || k == 100
    ensures k * n % k == 0
  {
    if k == 4 {
      assert 4 * n % 4 == 0;
    } else {
      assert 100 * n % 100 == 0;
    }
  }

  function FindYear(y: int, day: int): (r: int)
    requires DaysBeforeYear(y) <= day
    ensures y <= r && DaysBeforeYear(r) <= day < DaysBeforeYear(r + 1)
    decreases day - DaysBeforeYear(y)
  {
    YearLength(y);
    if day < DaysBeforeYear(y + 1) then y else FindYear(y + 1, day)
  }

  function YearOf(day: int): (r: int)
    ensures DaysBeforeYear(r) <= day < DaysBeforeYear(r + 1)
  {
    FindYear(400 * (day / 146_097), day)
  }

  /** Days before month m (1 to 13) in a year. */
  function DaysBeforeMonth(leap: bool, m: nat): nat
    requires 1 <= m <= 13
  {
    var common := [0, 31, 59, 90, 120, 151, 181, 212, 243, 273, 304, 334, 365][m - 1];
    if leap && m > 2 then common + 1 else common
  }

  function MonthOf(leap: bool, dayOfYear: nat): (m: nat)
    requires dayOfYear < if leap then 366 else 365
    ensures 1 <= m <= 12
    ensures DaysBeforeMonth(leap, m) <= dayOfYear < DaysBeforeMonth(leap, m + 1)
  {
    FindMonth(leap, dayOfYear, 1)
  }

  function FindMonth(leap: bool, dayOfYear: nat, m: nat): (r: nat)
    requires 1 <= m <= 12 && DaysBeforeMonth(leap, m) <= dayOfYear < DaysBeforeMonth(leap, 13)
    ensures 1 <= r <= 12 && DaysBeforeMonth(leap, r) <= dayOfYear < DaysBeforeMonth(leap, r + 1)
    decreases 12 - m
  {
    if dayOfYear < DaysBeforeMonth(leap, m + 1) then m else FindMonth(leap, dayOfYear, m + 1)
  }

  predicate ValidCivil(c: Civil) {
    && 1 <= c.month <= 12
    && 1 <= c.day <= DaysBeforeMonth(IsLeap(c.year), c.month + 1) - DaysBeforeMonth(IsLeap(c.year), c.month)
    && c.hour < 24 && c.minute < 60 && c.second < 60 && c.micros < 1_000_000
  }

  function ToCivil(ts: Timestamp): (c: Civil)
    ensures ValidCivil(c)
  {
    var day := ts / NANOS_PER_DAY + EPOCH_DAY;
    var rest := ts % NANOS_PER_DAY;
    var year := YearOf(day);
    YearLength(year);
    var dayOfYear := day - DaysBeforeYear(year);
    var month := MonthOf(IsLeap(year), dayOfYear);
    var seconds := rest / NANOS_PER_SECOND;
    Civil(year, month, dayOfYear - DaysBeforeMonth(IsLeap(year), month) + 1,
          seconds / 3600, seconds / 60 % 60, seconds % 60, rest % NANOS_PER_SECOND / 1000)
  }

  function DayNumber(c: Civil): int
    requires ValidCivil(c)
  {
    DaysBeforeYear(c.year) + DaysBeforeMonth(IsLeap(c.year), c.month) + c.day - 1
  }

  function SecondOfDay(c: Civil): nat {
    c.hour * 3600 + c.minute * 60 + c.second
  }

  function NanosOfDay(c: Civil): nat {
    SecondOfDay(c) * NANOS_PER_SECOND + c.micros * 1000
  }

  function FromCivil(c: Civil): Timestamp
    requires ValidCivil(c)
  {
    (DayNumber(c) - EPOCH_DAY) * NANOS_PER_DAY + NanosOfDay(c)
  }

  /** The value with anything below a microsecond cut off, as the clock reading is. */
  function Truncated(ts: Timestamp): Timestamp {
    ts / 1000 * 1000
  }

  function YearText(y: int): string {
    if 0 <= y <= 9999 then Fixed(y, 4)
    else if y > 0 then "+" + AtLeastFour(y)
    else "-" + AtLeastFour(-y)
  }

  function AtLeastFour(n: nat): string {
    if n < 10_000 then Fixed(n, 4) else AtLeastFour(n / 10) + [DigitChar(n % 10)]
  }

  /** A separator, a number in w digits, and what follows. */
  function Segment(separator: char, n: nat, w: nat, tail: string): string
    requires n < Pow10(w)
  {
    [separator] + Fixed(n, w) + tail
  }

  function RestText(c: Civil): string
    requires ValidCivil(c)
  {
    Segment('-', c.month, 2, Segment('-', c.day, 2, TimeText(c)))
  }

  function TimeText(c: Civil): string
    requires ValidCivil(c)
  {
    Segment('T', c.hour, 2, Segment(':', c.minute, 2, Segment(':', c.second, 2, Segment('.', c.micros, 6, "Z"))))
  }

  function ToRfc3339(ts: Timestamp): string {
    var c := ToCivil(ts);
    YearText(c.year) + RestText(c)
  }

  predicate FourDigitYear(ts: Timestamp) {
    0 <= ToCivil(ts).year <= 9999
  }

  /** The canonical shape: 27 characters, digits everywhere but at the separators. */
  predicate CanonicalShape(s: string) {
    && |s| == 27
    && s[4] == '-' && s[7] == '-' && s[10] == 'T' && s[13] == ':' && s[16] == ':' && s[19] == '.' && s[26] == 'Z'
    && AllDigits(s[0..4]) && AllDigits(s[5..7]) && AllDigits(s[8..10]) && AllDigits(s[11..13])
    && AllDigits(s[14..16]) && AllDigits(s[17..19]) && AllDigits(s[20..26])
  }

  function FieldsOf(s: string): Civil
    requires CanonicalShape(s)
  {
    Civil(Number(s[0..4]), Number(s[5..7]), Number(s[8..10]), Number(s[11..13]),
          Number(s[14..16]), Number(s[17..19]), Number(s[20..26]))
  }

  /** The instant a canonical text stands for. */
  function ParseCanonical(s: string): Option<Timestamp> {
    if CanonicalShape(s) && ValidCivil(FieldsOf(s)) then Some(FromCivil(FieldsOf(s))) else None
  }

  // ----- calendar fields order and determine instants

  predicate CivilLess(c: Civil, d: Civil) {
    c.year < d.year || (c.year == d.year && (
    c.month < d.month || (c.month == d.month && (
    c.day < d.day || (c.day == d.day && TimeLess(c, d))))))
  }

  predicate TimeLess(c: Civil, d: Civil) {
    c.hour < d.hour || (c.hour == d.hour && (
    c.minute < d.minute || (c.minute == d.minute && (
    c.second < d.second || (c.second == d.second && c.micros < d.micros)))))
  }

  lemma {:induction false} YearsAdvance(y: int, z: int)
    requires y <= z
    ensures DaysBeforeYear(y) <= DaysBeforeYear(z)
    decreases z - y
  {
    if y < z {
      YearLength(y);
      YearsAdvance(y + 1, z);
    }
  }

  lemma DayInYear(c: Civil)
    requires ValidCivil(c)
    ensures DaysBeforeYear(c.year) <= DayNumber(c) < DaysBeforeYear(c.year + 1)
  {
    YearLength(c.year);
  }

  lemma MonthsAdvance(leap: bool, m: nat, n: nat)
    requires 1 <= m < n <= 13
    ensures DaysBeforeMonth(leap, m + 1) <= DaysBeforeMonth(leap, n)
  {
  }

  lemma DatesAdvance(c: Civil, d: Civil)
    requires ValidCivil(c) && ValidCivil(d)
    requires c.year < d.year || (c.year == d.year && (c.month < d.month || (c.month == d.month && c.day < d.day)))
    ensures DayNumber(c) < DayNumber(d)
  {
    if c.year < d.year {
      DayInYear(c);
      DayInYear(d);
      YearsAdvance(c.year + 1, d.year);
    } else if c.month < d.month {
      MonthsAdvance(IsLeap(c.year), c.month, d.month);
    }
  }

  lemma TimesAdvance(c: Civil, d: Civil)
    requires ValidCivil(c) && ValidCivil(d)
    ensures NanosOfDay(c) < NANOS_PER_DAY
    ensures TimeLess(c, d) ==> NanosOfDay(c) < NanosOfDay(d)
  {
  }

  lemma CivilMonotone(c: Civil, d: Civil)
    requires ValidCivil(c) && ValidCivil(d) && CivilLess(c, d)
    ensures FromCivil(c) < FromCivil(d)
  {
    TimesAdvance(c, d);
    if c.year == d.year && c.month == d.month && c.day == d.day {
      assert DayNumber(c) == DayNumber(d);
    } else {
      DatesAdvance(c, d);
      DayThenTime(DayNumber(c) - EPOCH_DAY, DayNumber(d) - EPOCH_DAY, NanosOfDay(c), NanosOfDay(d));
    }
  }

  lemma DayThenTime(p: int, q: int, x: nat, y: nat)
    requires p < q && x < NANOS_PER_DAY
    ensures p * NANOS_PER_DAY + x < q * NANOS_PER_DAY + y
  {
  }

  lemma NanosOfDayOf(ts: Timestamp)
    ensures NanosOfDay(ToCivil(ts)) == ts % NANOS_PER_DAY / 1000 * 1000
  {
    var rest := ts % NANOS_PER_DAY;
    SplitNanos(rest);
  }

  lemma SplitNanos(rest: nat)
    ensures var seconds := rest / NANOS_PER_SECOND;
      (seconds / 3600 * 3600 + seconds / 60 % 60 * 60 + seconds % 60) * NANOS_PER_SECOND
        + rest % NANOS_PER_SECOND / 1000 * 1000 == rest / 1000 * 1000
  {
    var seconds := rest / NANOS_PER_SECOND;
    var sub := rest % NANOS_PER_SECOND;
    assert seconds / 60 / 60 == seconds / 3600;
    assert seconds / 60 == seconds / 3600 * 60 + seconds / 60 % 60;
    assert seconds == seconds / 60 * 60 + seconds % 60;
    assert rest == 1000 * (1_000_000 * seconds + sub / 1000) + sub % 1000;
    assert rest / 1000 == 1_000_000 * seconds + sub / 1000;
  }

  /** Going through the calendar loses exactly what is below a microsecond. */
  lemma CivilRoundTrip(ts: Timestamp)
    ensures FromCivil(ToCivil(ts)) == Truncated(ts)
  {
    NanosOfDayOf(ts);
    var days, rest := ts / NANOS_PER_DAY, ts % NANOS_PER_DAY;
    assert DayNumber(ToCivil(ts)) == days + EPOCH_DAY;
    TruncateWithinDay(ts);
  }

  lemma TruncateWithinDay(ts: int)
    ensures ts / NANOS_PER_DAY * NANOS_PER_DAY + ts % NANOS_PER_DAY / 1000 * 1000 == Truncated(ts)
  {
    var days, rest := ts / NANOS_PER_DAY, ts % NANOS_PER_DAY;
    assert ts == 1000 * (86_400_000_000 * days + rest / 1000) + rest % 1000;
    assert ts / 1000 == 86_400_000_000 * days + rest / 1000;
  }

  lemma WholeMicros(day: int, second: nat, micros: nat)
    ensures var ts := day * NANOS_PER_DAY + (second * NANOS_PER_SECOND + micros * 1000); Truncated(ts) == ts
  {
    var ts := day * NANOS_PER_DAY + (second * NANOS_PER_SECOND + micros * 1000);
    assert ts == 1000 * (day * 86_400_000_000 + second * 1_000_000 + micros);
  }

  lemma CivilInjective(c: Civil, d: Civil)
    requires ValidCivil(c) && ValidCivil(d) && FromCivil(c) == FromCivil(d)
    ensures c == d
  {
    if CivilLess(c, d) {
      CivilMonotone(c, d);
    } else if CivilLess(d, c) {
      CivilMonotone(d, c);
    }
  }

  /** Every valid calendar value is the one its instant is rendered as. */
  lemma CivilIsCanonical(c: Civil)
    requires ValidCivil(c)
    ensures ToCivil(FromCivil(c)) == c && Truncated(FromCivil(c)) == FromCivil(c)
  {
    WholeMicros(DayNumber(c) - EPOCH_DAY, SecondOfDay(c), c.micros);
    assert Truncated(FromCivil(c)) == FromCivil(c);
    CivilRoundTrip(FromCivil(c));
    hide ToCivil, FromCivil, Truncated;
    CivilInjective(c, ToCivil(FromCivil(c)));
  }

  /** Days since 1970 of the first moment of a date. */
  function EpochDay(y: int, m: nat, d: nat): int
    requires ValidCivil(Civil(y, m, d, 0, 0, 0, 0))
  {
    DayNumber(Civil(y, m, d, 0, 0, 0, 0)) - EPOCH_DAY
  }

  lemma KnownYears()
    ensures DaysBeforeYear(1900) == 693_961 && DaysBeforeYear(1970) == 719_528 && DaysBeforeYear(1985) == 725_007
    ensures DaysBeforeYear(2000) == 730_485 && DaysBeforeYear(2100) == 767_010
    ensures IsLeap(2000) && !IsLeap(1900) && !IsLeap(1970) && !IsLeap(1985) && !IsLeap(2100)
  {
  }

  /** Dates about leap years, centuries and the epoch, as the Gregorian calendar has them. */
  lemma KnownDays()
    ensures EpochDay(1970, 1, 1) == 0 && EpochDay(1985, 4, 12) == 5_580
    ensures EpochDay(1900, 2, 28) == -25_509 && EpochDay(1900, 3, 1) == -25_508
    ensures EpochDay(2000, 2, 29) == 11_016 && EpochDay(2000, 3, 1) == 11_017
    ensures EpochDay(2100, 2, 28) == 47_540 && EpochDay(2100, 3, 1) == 47_541
  {
    KnownYears();
    hide DaysBeforeYear, IsLeap;
  }

  lemma KnownInstant(c: Civil)
    requires c == Civil(1985, 4, 12, 23, 20, 50, 520_000)
    ensures ValidCivil(c) && FromCivil(c) == 482_196_050_520_000_000
  {
    KnownYears();
    KnownDays();
    hide DaysBeforeYear, IsLeap;
    assert SecondOfDay(c) == 84_050;
    assert DayNumber(c) - EPOCH_DAY == 5_580;
  }

  lemma KnownTime(c: Civil)
    requires ValidCivil(c) && c.hour == 23 && c.minute == 20 && c.second == 50 && c.micros == 520_000
    ensures TimeText(c) == "T" + "23" + (":" + "20" + (":" + "50" + ("." + "520000" + "Z")))
  {
    FixedTwo(23, '2', '3');
    FixedTwo(20, '2', '0');
    FixedTwo(50, '5', '0');
    FixedSix();
    hide Fixed, Pow10, ValidCivil;
  }

  lemma KnownDate(c: Civil)
    requires ValidCivil(c) && c.month == 4 && c.day == 12
    ensures RestText(c) == "-" + "04" + ("-" + "12" + TimeText(c))
  {
    FixedTwo(4, '0', '4');
    FixedTwo(12, '1', '2');
    hide Fixed, Pow10, ValidCivil, TimeText;
  }

  /** The first example of section 5.8 of RFC 3339, in six fraction digits. */
  lemma KnownText()
    ensures ToRfc3339(482_196_050_520_000_000) ==
      "1985" + ("-" + "04" + ("-" + "12" + ("T" + "23" + (":" + "20" + (":" + "50" + ("." + "520000" + "Z"))))))
  {
    var c := Civil(1985, 4, 12, 23, 20, 50, 520_000);
    KnownInstant(c);
    CivilIsCanonical(c);
    KnownDate(c);
    KnownTime(c);
    FixedFour();
    hide Fixed, FromCivil, ToCivil, ValidCivil, RestText, TimeText;
  }

  lemma FixedTwo(n: nat, a: char, b: char)
    requires n < 100 && IsDigit(a) && IsDigit(b) && n == 10 * DigitValue(a) + DigitValue(b)
    ensures Pow10(2) == 100 && Fixed(n, 2) == [a, b]
  {
    FixedPush(0, 0, n / 10);
    FixedPush(n / 10, 1, n % 10);
  }

  lemma FixedPush(n: nat, w: nat, d: nat)
    requires n < Pow10(w) && d < 10
    ensures 10 * n + d < Pow10(w + 1) && Fixed(10 * n + d, w + 1) == Fixed(n, w) + [DigitChar(d)]
  {
  }

  lemma FixedFour()
    ensures Pow10(4) == 10_000 && Fixed(1985, 4) == "1985"
  {
    hide Fixed, Pow10;
    FixedTwo(19, '1', '9');
    FixedPush(19, 2, 8);
    FixedPush(198, 3, 5);
    TensToSix();
  }

  lemma FixedSix()
    ensures Pow10(6) == 1_000_000 && Fixed(520_000, 6) == "520000"
  {
    hide Fixed, Pow10;
    FixedTwo(52, '5', '2');
    FixedPush(52, 2, 0);
    FixedPush(520, 3, 0);
    FixedPush(5200, 4, 0);
    FixedPush(52000, 5, 0);
    TensToSix();
  }

  lemma TensToSix()
    ensures Pow10(4) == 10_000 && Pow10(6) == 1_000_000
  {
  }

  // ----- text order is time order

  lemma SegmentOrder(separator: char, m: nat, n: nat, w: nat, x: string, y: string)
    requires m < Pow10(w) && n < Pow10(w)
    ensures Less(Segment(separator, m, w, x), Segment(separator, n, w, y)) <==> m < n || (m == n && Less(x, y))
  {
    FixedOrder(m, n, w);
    LessByPrefix([separator] + Fixed(m, w), [separator] + Fixed(n, w), x, y);
    LessByPrefix([separator], [separator], Fixed(m, w), Fixed(n, w));
    LessAsymmetric([separator], [separator]);
    NumberOfFixed(m, w);
    NumberOfFixed(n, w);
    assert ([separator] + Fixed(m, w))[1..] == Fixed(m, w) && ([separator] + Fixed(n, w))[1..] == Fixed(n, w);
  }

  lemma TimeTextOrder(c: Civil, d: Civil)
    requires ValidCivil(c) && ValidCivil(d)
    ensures Less(TimeText(c), TimeText(d)) <==> TimeLess(c, d)
  {
    LessAsymmetric("Z", "Z");
    SegmentOrder('.', c.micros, d.micros, 6, "Z", "Z");
    var c6, d6 := Segment('.', c.micros, 6, "Z"), Segment('.', d.micros, 6, "Z");
    SegmentOrder(':', c.second, d.second, 2, c6, d6);
    var c5, d5 := Segment(':', c.second, 2, c6), Segment(':', d.second, 2, d6);
    SegmentOrder(':', c.minute, d.minute, 2, c5, d5);
    SegmentOrder('T', c.hour, d.hour, 2, Segment(':', c.minute, 2, c5), Segment(':', d.minute, 2, d5));
  }

  lemma RestTextOrder(c: Civil, d: Civil)
    requires ValidCivil(c) && ValidCivil(d) && c.year == d.year
    ensures Less(RestText(c), RestText(d)) <==> CivilLess(c, d)
  {
    TimeTextOrder(c, d);
    SegmentOrder('-', c.day, d.day, 2, TimeText(c), TimeText(d));
    SegmentOrder('-', c.month, d.month, 2, Segment('-', c.day, 2, TimeText(c)), Segment('-', d.day, 2, TimeText(d)));
  }

  /** For four-digit years, comparing the texts compares the instants. */
  lemma TextOrderIsTimeOrder(a: Timestamp, b: Timestamp)
    requires FourDigitYear(a) && FourDigitYear(b)
    ensures Less(ToRfc3339(a), ToRfc3339(b)) <==> Truncated(a) < Truncated(b)
  {
    var c, d := ToCivil(a), ToCivil(b);
    FixedOrder(c.year, d.year, 4);
    LessByPrefix(YearText(c.year), YearText(d.year), RestText(c), RestText(d));
    if c.year == d.year {
      RestTextOrder(c, d);
    }
    assert Less(ToRfc3339(a), ToRfc3339(b)) <==> CivilLess(c, d);
    CivilOrderIsTimeOrder(a, b);
  }

  lemma CivilOrderIsTimeOrder(a: Timestamp, b: Timestamp)
    ensures CivilLess(ToCivil(a), ToCivil(b)) <==> Truncated(a) < Truncated(b)
  {
    var c, d := ToCivil(a), ToCivil(b);
    CivilRoundTrip(a);
    CivilRoundTrip(b);
    if CivilLess(c, d) {
      CivilMonotone(c, d);
    } else if CivilLess(d, c) {
      CivilMonotone(d, c);
    }
  }

  /**
    Against a four-digit-year timestamp, the text order of any timestamp is right
    exactly up to year 9999: earlier signed years still sort first, later ones sort
    first as well and so are always misplaced.
   */
  lemma TextOrderLimit(a: Timestamp, b: Timestamp)
    requires FourDigitYear(b)
    ensures (Less(ToRfc3339(a), ToRfc3339(b)) <==> Truncated(a) < Truncated(b)) <==> ToCivil(a).year <= 9999
  {
    if FourDigitYear(a) {
      TextOrderIsTimeOrder(a, b);
    } else {
      CivilOrderIsTimeOrder(a, b);
      assert ToRfc3339(a)[0] in {'+', '-'};
      assert ToRfc3339(b)[0] == Fixed(ToCivil(b).year, 4)[0];
    }
  }

  /** The first instant of a year. */
  function NewYear(y: int): Timestamp {
    FromCivil(Civil(y, 1, 1, 0, 0, 0, 0))
  }

  lemma NewYearOf(y: int)
    ensures ToCivil(NewYear(y)) == Civil(y, 1, 1, 0, 0, 0, 0)
  {
    CivilIsCanonical(Civil(y, 1, 1, 0, 0, 0, 0));
  }

  /** Behind every year without a four-digit text there is an earlier one that does not sort before it. */
  function EarlierYear(y: int): int {
    if y > 9999 then 2000 else if y > -9999 then -9999 else 10 * y - 9
  }

  lemma EarlierYearText(y: int, rest: string, rest': string)
    requires y < 0 && rest' != [] && rest'[0] == '-'
    ensures !Less(YearText(EarlierYear(y)) + rest, YearText(y) + rest')
  {
    var n, m := -y, -EarlierYear(y);
    var a, b := YearText(EarlierYear(y)), YearText(y);
    if y > -9999 {
      FixedOrder(m, n, 4);
      LessByPrefix("-" + Fixed(m, 4), "-" + Fixed(n, 4), rest, rest');
      LessByPrefix("-", "-", Fixed(m, 4), Fixed(n, 4));
      assert ("-" + Fixed(m, 4))[1..] == Fixed(m, 4) && ("-" + Fixed(n, 4))[1..] == Fixed(n, 4);
      LessAsymmetric("-", "-");
    } else {
      assert m / 10 == n && m % 10 == 9;
      assert a + rest == b + ("9" + rest);
      LessByPrefix(b, b, "9" + rest, rest');
      LessAsymmetric(b, b);
    }
  }

  lemma EarlierIsNotLess(ts: Timestamp)
    requires !FourDigitYear(ts)
    ensures var a := NewYear(EarlierYear(ToCivil(ts).year));
      Truncated(a) < Truncated(ts) && !Less(ToRfc3339(a), ToRfc3339(ts))
  {
    var d := ToCivil(ts);
    var y := EarlierYear(d.year);
    var a := NewYear(y);
    NewYearOf(y);
    CivilOrderIsTimeOrder(a, ts);
    var c := ToCivil(a);
    hide ToCivil, NewYear, Truncated;
    if d.year > 9999 {
      assert ToRfc3339(ts)[0] == '+';
      assert ToRfc3339(a)[0] == Fixed(2000, 4)[0];
    } else {
      EarlierYearText(d.year, RestText(c), RestText(d));
    }
  }

  // ----- parsing undoes formatting

  lemma SegmentSlices(separator: char, n: nat, w: nat, tail: string)
    requires n < Pow10(w)
    ensures var s := Segment(separator, n, w, tail);
      |s| == 1 + w + |tail| && s[0] == separator && s[1..w + 1] == Fixed(n, w) && s[w + 1..] == tail
  {
  }

  /** Two segments in a row, the first with two digits. */
  lemma TwoSegments(first: char, m: nat, second: char, n: nat, w: nat, tail: string)
    requires m < 100 && n < Pow10(w)
    ensures var s := Segment(first, m, 2, Segment(second, n, w, tail));
      && |s| == 4 + w + |tail| && s[0] == first && s[3] == second && s[w + 4..] == tail
      && s[1..3] == Fixed(m, 2) && s[4..w + 4] == Fixed(n, w)
  {
    var inner := Segment(second, n, w, tail);
    var s := Segment(first, m, 2, inner);
    SegmentSlices(second, n, w, tail);
    SegmentSlices(first, m, 2, inner);
    assert s[w + 4..] == s[3..][w + 1..] && s[4..w + 4] == s[3..][1..w + 1] && s[3] == s[3..][0];
  }

  lemma TimeSlices(c: Civil)
    requires ValidCivil(c)
    ensures var s := TimeText(c);
      && |s| == 17 && s[0] == 'T' && s[3] == ':' && s[6] == ':' && s[9] == '.' && s[16] == 'Z'
      && s[1..3] == Fixed(c.hour, 2) && s[4..6] == Fixed(c.minute, 2)
      && s[7..9] == Fixed(c.second, 2) && s[10..16] == Fixed(c.micros, 6)
  {
    var inner := Segment(':', c.second, 2, Segment('.', c.micros, 6, "Z"));
    TwoSegments(':', c.second, '.', c.micros, 6, "Z");
    TwoSegments('T', c.hour, ':', c.minute, 2, inner);
    SixAlong(TimeText(c), inner);
  }

  lemma SixAlong(s: string, inner: string)
    requires |s| == 17 && s[6..] == inner && inner[10..] == "Z"
    ensures s[6] == inner[0] && s[9] == inner[3] && s[16] == 'Z'
    ensures s[7..9] == inner[1..3] && s[10..16] == inner[4..10]
  {
    assert inner[10..][0] == 'Z';
  }

  /** Where the fields of a date and a time end up behind a four-character year. */
  lemma AssembledSlices(year: string, rest: string)
    requires |year| == 4 && |rest| == 23
    ensures var s, time := year + rest, rest[6..];
      && |s| == 27 && s[0..4] == year && s[4] == rest[0] && s[5..7] == rest[1..3] && s[7] == rest[3]
      && s[8..10] == rest[4..6] && s[10] == time[0] && s[11..13] == time[1..3] && s[13] == time[3]
      && s[14..16] == time[4..6] && s[16] == time[6] && s[17..19] == time[7..9] && s[19] == time[9]
      && s[20..26] == time[10..16] && s[26] == time[16]
  {
  }

  lemma TextSlices(ts: Timestamp)
    requires FourDigitYear(ts)
    ensures CanonicalShape(ToRfc3339(ts)) && FieldsOf(ToRfc3339(ts)) == ToCivil(ts)
  {
    FieldsOfText(ToCivil(ts));
  }

  lemma FieldsOfText(c: Civil)
    requires ValidCivil(c) && 0 <= c.year <= 9999
    ensures var s := Fixed(c.year, 4) + RestText(c);
      CanonicalShape(s) && FieldsOf(s) == c
  {
    TimeSlices(c);
    TwoSegments('-', c.month, '-', c.day, 2, TimeText(c));
    AssembledSlices(Fixed(c.year, 4), RestText(c));
    FieldsFromSlices(Fixed(c.year, 4) + RestText(c), c);
  }

  lemma FieldsFromSlices(s: string, c: Civil)
    requires ValidCivil(c) && 0 <= c.year <= 9999
    requires |s| == 27 && s[0..4] == Fixed(c.year, 4)
    requires s[4] == '-' && s[5..7] == Fixed(c.month, 2) && s[7] == '-' && s[8..10] == Fixed(c.day, 2)
    requires s[10] == 'T' && s[11..13] == Fixed(c.hour, 2) && s[13] == ':' && s[14..16] == Fixed(c.minute, 2)
    requires s[16] == ':' && s[17..19] == Fixed(c.second, 2) && s[19] == '.' && s[20..26] == Fixed(c.micros, 6)
    requires s[26] == 'Z'
    ensures CanonicalShape(s) && FieldsOf(s) == c
  {
    FixedReadsBack(s[0..4], c.year, 4);
    FixedReadsBack(s[5..7], c.month, 2);
    FixedReadsBack(s[8..10], c.day, 2);
    FixedReadsBack(s[11..13], c.hour, 2);
    FixedReadsBack(s[14..16], c.minute, 2);
    FixedReadsBack(s[17..19], c.second, 2);
    FixedReadsBack(s[20..26], c.micros, 6);
    hide Fixed, Number, AllDigits;
  }

  lemma FixedReadsBack(s: string, n: nat, w: nat)
    requires n < Pow10(w) && s == Fixed(n, w)
    ensures AllDigits(s) && Number(s) == n
  {
    NumberOfFixed(n, w);
  }

  /** Formatting then parsing returns the microsecond-truncated value; signed years do not parse. */
  lemma CanonicalFormatted(ts: Timestamp)
    ensures ParseCanonical(ToRfc3339(ts)) == if FourDigitYear(ts) then Some(Truncated(ts)) else None
  {
    if FourDigitYear(ts) {
      TextSlices(ts);
      CivilRoundTrip(ts);
    } else {
      var s := ToRfc3339(ts);
      assert s[0] in {'+', '-'};
      assert |s| >= 4 ==> s[0..4][0] == s[0];
    }
  }

  /** Parsing then formatting returns the same text: the canonical form is unique. */
  lemma CanonicalParsed(s: string)
    requires ParseCanonical(s).Some?
    ensures ToRfc3339(ParseCanonical(s).value) == s
  {
    var c := FieldsOf(s);
    CivilIsCanonical(c);
    FixedOfNumber(s[0..4]);
    var ts := FromCivil(c);
    assert ParseCanonical(s) == Some(ts) && FourDigitYear(ts);
    TextSlices(ts);
    SameFields(s, ToRfc3339(ts));
  }

  lemma SameFields(s: string, t: string)
    requires CanonicalShape(s) && CanonicalShape(t) && FieldsOf(s) == FieldsOf(t)
    ensures s == t
  {
    SameNumber(s[0..4], t[0..4]);
    SameNumber(s[5..7], t[5..7]);
    SameNumber(s[8..10], t[8..10]);
    SameNumber(s[11..13], t[11..13]);
    SameNumber(s[14..16], t[14..16]);
    SameNumber(s[17..19], t[17..19]);
    SameNumber(s[20..26], t[20..26]);
    Reassemble(s);
    Reassemble(t);
  }

  lemma SameNumber(s: string, t: string)
    requires |s| == |t| && AllDigits(s) && AllDigits(t) && Number(s) == Number(t)
    ensures s == t
  {
    FixedOfNumber(s);
    FixedOfNumber(t);
  }

  lemma Reassemble(s: string)
    requires CanonicalShape(s)
    ensures s == s[0..4] + "-" + s[5..7] + "-" + s[8..10] + "T" + s[11..13] + ":" + s[14..16] + ":"
                 + s[17..19] + "." + s[20..26] + "Z"
  {
  }
}
