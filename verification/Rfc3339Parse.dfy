/** Parsing timestamps in any of the spellings of section 5.6 of RFC 3339. */
module Rfc3339Parse {
  import opened Common
  import opened Digits
  import opened Rfc3339

  /** Date and time down to seconds, then at least one character of what follows. */
  predicate StartsDateTime(s: string) {
    && |s| >= 20
    && s[4] == '-' && s[7] == '-' && s[10] in {'T', 't', ' '} && s[13] == ':' && s[16] == ':'
    && AllDigits(s[0..4]) && AllDigits(s[5..7]) && AllDigits(s[8..10])
    && AllDigits(s[11..13]) && AllDigits(s[14..16]) && AllDigits(s[17..19])
  }

  function WholeSeconds(s: string): Civil
    requires StartsDateTime(s)
  {
    Civil(Number(s[0..4]), Number(s[5..7]), Number(s[8..10]), Number(s[11..13]),
          Number(s[14..16]), Number(s[17..19]), 0)
  }

  /** Length of the leading run of digits. */
  function DigitRun(s: string): (n: nat)
    ensures n <= |s| && AllDigits(s[..n]) && (n < |s| ==> !IsDigit(s[n]))
  {
    if s == [] || !IsDigit(s[0]) then 0
    else
      var n := DigitRun(s[1..]);
      assert s[..n + 1] == [s[0]] + s[1..][..n];
      n + 1
  }

  /** Fraction digits as nanoseconds; what is below a nanosecond is cut off. */
  function Nanos(digits: string): nat
    requires AllDigits(digits)
  {
    if |digits| >= 9 then Number(digits[..9]) else Number(digits) * Pow10(9 - |digits|)
  }

  /** An optional fraction, and what follows it. */
  function ParseFraction(s: string): Option<(nat, string)> {
    if s == [] || s[0] != '.' then Some((0, s))
    else
      var n := DigitRun(s[1..]);
      if n == 0 then None else Some((Nanos(s[1..][..n]), s[1..][n..]))
  }

  /** Seconds east of UTC. */
  function ParseOffset(s: string): Option<int> {
    if s == "Z" || s == "z" then Some(0)
    else if |s| == 6 && s[0] in {'+', '-'} && s[3] == ':' && AllDigits(s[1..3]) && AllDigits(s[4..6]) then
      var hours, minutes := Number(s[1..3]), Number(s[4..6]);
      if hours >= 24 || minutes >= 60 then None
      else Some((if s[0] == '+' then 1 else -1) * (hours * 3600 + minutes * 60))
    else None
  }

  function ParseRfc3339(s: string): Option<Timestamp> {
    if !StartsDateTime(s) || !ValidCivil(WholeSeconds(s)) then None
    else
      match ParseFraction(s[19..])
      case None => None
      case Some((nanos, rest)) =>
        match ParseOffset(rest)
        case None => None
        case Some(east) => Some(FromCivil(WholeSeconds(s)) + nanos - east * NANOS_PER_SECOND)
  }

  // ----- the canonical spelling

  lemma MicrosAdd(c: Civil, micros: nat)
    requires c.micros == 0 && micros < 1_000_000
    ensures ValidCivil(c) <==> ValidCivil(c.(micros := micros))
    ensures ValidCivil(c) ==> FromCivil(c.(micros := micros)) == FromCivil(c) + micros * 1000
  {
  }

  /** A canonical text with something else in the place of its Z. */
  function WithOffset(s: string, offset: string): string
    requires CanonicalShape(s)
  {
    s[..26] + offset
  }

  lemma CanonicalTail(s: string, offset: string)
    requires CanonicalShape(s) && offset != [] && !IsDigit(offset[0])
    ensures ParseFraction(WithOffset(s, offset)[19..]) == Some((Number(s[20..26]) * 1000, offset))
    ensures Number(s[20..26]) < 1_000_000
  {
    var tail := WithOffset(s, offset)[19..];
    assert tail == "." + s[20..26] + offset;
    assert tail[1..][..6] == s[20..26] && tail[1..][6..] == offset;
    DigitRunIs(tail[1..], 6);
    FixedOfNumber(s[20..26]);
    assert Pow10(6) == 1_000_000 && Pow10(3) == 1000;
  }

  lemma {:induction false} DigitRunIs(s: string, n: nat)
    requires n < |s| && AllDigits(s[..n]) && !IsDigit(s[n])
    ensures DigitRun(s) == n
  {
    if n > 0 {
      assert s[..n][0] == s[0];
      var front := s[1..][..n - 1];
      forall i | 0 <= i < |front| ensures IsDigit(front[i]) {
        assert front[i] == s[..n][i + 1];
      }
      DigitRunIs(s[1..], n - 1);
    }
  }

  lemma SameStart(s: string, offset: string)
    requires CanonicalShape(s) && offset != []
    ensures var t := WithOffset(s, offset);
      StartsDateTime(t) && FieldsOf(s) == WholeSeconds(t).(micros := Number(s[20..26]))
  {
    var t := WithOffset(s, offset);
    assert t[0..4] == s[0..4] && t[5..7] == s[5..7] && t[8..10] == s[8..10];
    assert t[11..13] == s[11..13] && t[14..16] == s[14..16] && t[17..19] == s[17..19];
  }

  /** With another offset a canonical text stands for its fields read at that distance from UTC. */
  lemma OffsetIsParsed(s: string, offset: string)
    requires CanonicalShape(s) && ParseOffset(offset).Some?
    ensures ParseRfc3339(WithOffset(s, offset)) ==
      if ParseCanonical(s).Some? then Some(ParseCanonical(s).value - ParseOffset(offset).value * NANOS_PER_SECOND)
      else None
  {
    assert offset != [] && !IsDigit(offset[0]);
    CanonicalTail(s, offset);
    SameStart(s, offset);
    hide FromCivil, ValidCivil, CanonicalShape, ParseOffset;
    MicrosAdd(WholeSeconds(WithOffset(s, offset)), Number(s[20..26]));
  }

  /** A text of the canonical shape stands for its canonical instant. */
  lemma CanonicalIsParsed(s: string)
    requires CanonicalShape(s)
    ensures ParseRfc3339(s) == ParseCanonical(s)
  {
    assert WithOffset(s, "Z") == s && ParseOffset("Z") == Some(0);
    OffsetIsParsed(s, "Z");
  }

  function OffsetText(ahead: bool, hours: nat, minutes: nat): string
    requires hours < 24 && minutes < 60
  {
    assert Pow10(2) == 100;
    (if ahead then "+" else "-") + Fixed(hours, 2) + ":" + Fixed(minutes, 2)
  }

  /** How many nanoseconds a clock at this offset shows more than UTC. */
  function Ahead(ahead: bool, hours: nat, minutes: nat): int {
    (if ahead then 1 else -1) * (hours * 3600 + minutes * 60) * NANOS_PER_SECOND
  }

  lemma OffsetReadsBack(ahead: bool, hours: nat, minutes: nat)
    requires hours < 24 && minutes < 60
    ensures ParseOffset(OffsetText(ahead, hours, minutes)).Some?
    ensures ParseOffset(OffsetText(ahead, hours, minutes)).value * NANOS_PER_SECOND == Ahead(ahead, hours, minutes)
  {
    var s := OffsetText(ahead, hours, minutes);
    NumberOfFixed(hours, 2);
    NumberOfFixed(minutes, 2);
    assert s[1..3] == Fixed(hours, 2) && s[4..6] == Fixed(minutes, 2);
  }

  /** The time a clock at any offset shows, written with that offset, parses to the instant, whole microseconds. */
  lemma AnyOffsetParses(ts: Timestamp, ahead: bool, hours: nat, minutes: nat)
    requires hours < 24 && minutes < 60 && FourDigitYear(ts + Ahead(ahead, hours, minutes))
    ensures var shown := ToRfc3339(ts + Ahead(ahead, hours, minutes));
      && CanonicalShape(shown)
      && ParseRfc3339(WithOffset(shown, OffsetText(ahead, hours, minutes))) == Some(Truncated(ts))
  {
    hide ToRfc3339, ParseCanonical, ParseOffset, ParseRfc3339, OffsetText, CanonicalShape, FourDigitYear, Truncated;
    var east := Ahead(ahead, hours, minutes);
    var shown := ToRfc3339(ts + east);
    TextSlices(ts + east);
    CanonicalFormatted(ts + east);
    OffsetReadsBack(ahead, hours, minutes);
    OffsetIsParsed(shown, OffsetText(ahead, hours, minutes));
    TruncationShifts(ts, (if ahead then 1 else -1) * (hours * 3600 + minutes * 60));
  }

  lemma TruncationShifts(ts: Timestamp, seconds: int)
    ensures Truncated(ts + seconds * NANOS_PER_SECOND) == Truncated(ts) + seconds * NANOS_PER_SECOND
  {
    assert (ts + seconds * NANOS_PER_SECOND) / 1000 == ts / 1000 + seconds * 1_000_000;
  }

  /** A zero behind a fraction changes nothing; nine digits count nanoseconds. */
  lemma FractionDigits(digits: string)
    requires AllDigits(digits)
    ensures AllDigits(digits + "0") && Nanos(digits + "0") == Nanos(digits)
    ensures |digits| == 9 ==> Nanos(digits) == Number(digits)
  {
    hide Number, Pow10, Nanos;
    var more := digits + "0";
    NumberPush(digits, '0');
    if |digits| >= 9 {
      FirstNine(digits, more);
      NanosUpToNine(digits[..9]);
      assert |digits| == 9 ==> digits[..9] == digits;
      OneTen();
    } else {
      NanosUpToNine(digits);
      NanosUpToNine(more);
      TensMove(Number(digits), 9 - |digits|);
    }
  }

  lemma OneTen()
    ensures Pow10(0) == 1
  {
  }

  lemma FirstNine(digits: string, more: string)
    requires AllDigits(digits) && AllDigits(more) && |digits| >= 9 && digits <= more
    ensures Nanos(more) == Nanos(digits)
  {
    assert more[..9] == digits[..9];
  }

  lemma NanosUpToNine(digits: string)
    requires AllDigits(digits) && |digits| <= 9
    ensures Nanos(digits) == Number(digits) * Pow10(9 - |digits|)
  {
    if |digits| == 9 {
      assert digits[..9] == digits && Pow10(0) == 1;
    }
  }

  lemma NumberPush(s: string, c: char)
    requires AllDigits(s) && IsDigit(c)
    ensures AllDigits(s + [c]) && Number(s + [c]) == 10 * Number(s) + DigitValue(c)
  {
    assert (s + [c])[..|s|] == s;
  }

  lemma TensMove(n: nat, w: nat)
    requires w > 0
    ensures 10 * n * Pow10(w - 1) == n * Pow10(w)
  {
  }

  /** Formatting then parsing returns the microsecond-truncated value; signed years do not parse. */
  lemma ParseFormatted(ts: Timestamp)
    ensures ParseRfc3339(ToRfc3339(ts)) == if FourDigitYear(ts) then Some(Truncated(ts)) else None
  {
    CanonicalFormatted(ts);
    var s := ToRfc3339(ts);
    if FourDigitYear(ts) {
      TextSlices(ts);
      CanonicalIsParsed(s);
    } else {
      SignedYearText(ts);
      assert |s| >= 4 ==> s[0..4][0] == s[0];
    }
  }

  lemma SignedYearText(ts: Timestamp)
    requires !FourDigitYear(ts)
    ensures ToRfc3339(ts) != [] && !IsDigit(ToRfc3339(ts)[0])
  {
    assert ToRfc3339(ts)[0] in {'+', '-'};
  }

  /** Parsing then formatting returns the same text exactly when it has the canonical shape. */
  lemma FormatParsed(s: string)
    requires ParseRfc3339(s).Some?
    ensures ToRfc3339(ParseRfc3339(s).value) == s <==> CanonicalShape(s)
  {
    var ts := ParseRfc3339(s).value;
    assert s[0..4][0] == s[0] && IsDigit(s[0]);
    if FourDigitYear(ts) {
      TextSlices(ts);
    } else {
      SignedYearText(ts);
    }
    if CanonicalShape(s) {
      CanonicalIsParsed(s);
      CanonicalParsed(s);
    }
  }
}
