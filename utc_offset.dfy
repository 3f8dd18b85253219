/**
 * The Data Collector's UTC offset, read from the `%z` text of the current
 * local time (`+HHMM` or `-HHMM`) and turned into signed milliseconds.
 *
 * Two parsers live here: `SdcUtcOffsetMillisAsWritten` follows the script's
 * character slicing exactly, including its half-hour quirk, and
 * `SdcUtcOffsetMillis` is the parser the script evidently means, which
 * reads the half hour correctly.
 */
module UtcOffset {
  import opened TimeUnits

  /** The Python exceptions the slicing parser can raise on text that is not a `%z` offset. */
  datatype PyError = IndexError | ValueError

  datatype Result<T> = Ok(value: T) | Err(error: PyError)

  // ---------------------------------------------------------------------
  // Python text primitives

  predicate IsDigit(c: char) {
    '0' <= c <= '9'
  }

  function DigitValue(c: char): (d: nat)
    requires IsDigit(c)
    ensures d <= 9
  {
    (c as int) - ('0' as int)
  }

  predicate AllDigits(s: string) {
    forall i :: 0 <= i < |s| ==> IsDigit(s[i])
  }

  /** The value of a string of decimal digits, most significant first. */
  function DigitsValue(s: string): nat
    requires AllDigits(s)
  {
    if |s| == 0 then 0 else 10 * DigitsValue(s[..|s| - 1]) + DigitValue(s[|s| - 1])
  }

  /**
   * Python's `int(text)` on decimal literals: an optional `+` or `-`
   * followed by one or more ASCII digits; anything else raises ValueError.
   */
  function PyInt(s: string): (r: Result<int>)
    ensures r.Ok? <==> (var d := if |s| > 0 && (s[0] == '+' || s[0] == '-') then s[1..] else s;
                        |d| > 0 && AllDigits(d))
    ensures |s| > 0 && AllDigits(s) ==> r == Ok(DigitsValue(s))
    ensures |s| > 1 && (s[0] == '+' || s[0] == '-') && AllDigits(s[1..])
            ==> r == Ok(if s[0] == '-' then -(DigitsValue(s[1..]) as int) else DigitsValue(s[1..]))
  {
    var negative := |s| > 0 && s[0] == '-';
    var digits := if |s| > 0 && (s[0] == '+' || s[0] == '-') then s[1..] else s;
    if |digits| == 0 || !AllDigits(digits) then Err(ValueError)
    else
      var magnitude: int := DigitsValue(digits);
      Ok(if negative then -magnitude else magnitude)
  }

  /** Python's `s[:-2]`: everything but the last two characters. */
  function DropLastTwo(s: string): (r: string)
    ensures |r| == if |s| >= 2 then |s| - 2 else 0
    ensures r <= s
  {
    if |s| >= 2 then s[..|s| - 2] else []
  }

  /** Python's `s[2:]`: everything from index 2 on. */
  function FromIndexTwo(s: string): (r: string)
    ensures |r| == if |s| >= 2 then |s| - 2 else 0
    ensures |s| >= 2 ==> s == s[..2] + r
  {
    if |s| >= 2 then s[2..] else []
  }

  // ---------------------------------------------------------------------
  // The fields of a well-formed `%z` text

  /** What `strftime('%z')` prints for a whole-minute offset: a sign and four digits. */
  predicate IsZText(z: string) {
    |z| == 5 && (z[0] == '+' || z[0] == '-')
    && IsDigit(z[1]) && IsDigit(z[2]) && IsDigit(z[3]) && IsDigit(z[4])
  }

  function SignOf(z: string): int
    requires IsZText(z)
  {
    if z[0] == '-' then -1 else 1
  }

  function HourField(z: string): nat
    requires IsZText(z)
  {
    10 * DigitValue(z[1]) + DigitValue(z[2])
  }

  function MinuteField(z: string): nat
    requires IsZText(z)
  {
    10 * DigitValue(z[3]) + DigitValue(z[4])
  }

  /** Every `k` hours plus an optional half hour, of either sign, is a whole number of half hours. */
  lemma HalfHourMultiple(k: int, half: bool)
    ensures (k * MillisPerHour + (if half then HalfHourMillis else 0)) % HalfHourMillis == 0
    ensures (-(k * MillisPerHour + (if half then HalfHourMillis else 0))) % HalfHourMillis == 0
  {
    var m := 2 * k + (if half then 1 else 0);
    assert k * MillisPerHour + (if half then HalfHourMillis else 0) == m * HalfHourMillis;
    assert -(k * MillisPerHour + (if half then HalfHourMillis else 0)) == (-m) * HalfHourMillis;
  }

  // ---------------------------------------------------------------------
  // The parser as the script writes it

  /**
   * `get_sdc_utc_offset_millis` with the `%z` text as input: strip a
   * leading `-`, then one leading `0`, read the hours from all but the last
   * two characters, add half an hour when the text from index 2 on is
   * exactly `30`, and negate when a `-` was stripped.
   */
  function SdcUtcOffsetMillisAsWritten(z: string): (r: Result<int>)
    ensures |z| == 0 || z == "-" ==> r == Err(IndexError)
    ensures r.Ok? ==> r.value % HalfHourMillis == 0
  {
    if |z| == 0 then Err(IndexError)
    else
      var negativeOffset := z[0] == '-';
      var offset := if negativeOffset then z[1..] else z;
      if |offset| == 0 then Err(IndexError)
      else
        var offset := if offset[0] == '0' then offset[1..] else offset;
        match PyInt(DropLastTwo(offset))
        case Err(e) => Err(e)
        case Ok(offsetHours) =>
          var halfHour := FromIndexTwo(offset) == "30";
          HalfHourMultiple(offsetHours, halfHour);
          var offsetMillis := offsetHours * MillisPerHour + (if halfHour then HalfHourMillis else 0);
          Ok(if negativeOffset then -offsetMillis else offsetMillis)
  }

  /** When the as-written parser adds its half hour: only for `-HH30` whose first hour digit is not `0`. */
  predicate AsWrittenHalfHour(z: string)
    requires IsZText(z)
  {
    z[0] == '-' && z[1] != '0' && MinuteField(z) == 30
  }

  lemma DigitsValueOne(a: char)
    requires IsDigit(a)
    ensures DigitsValue([a]) == DigitValue(a)
  {
  }

  lemma DigitsValueTwo(a: char, b: char)
    requires IsDigit(a) && IsDigit(b)
    ensures DigitsValue([a, b]) == 10 * DigitValue(a) + DigitValue(b)
  {
    assert [a, b][..1] == [a];
    DigitsValueOne(a);
  }

  /**
   * On well-formed `%z` text the as-written parser never fails, reads the
   * two hour digits correctly in every case, ignores the minutes, and adds
   * the half hour only in the `AsWrittenHalfHour` case.
   */
  lemma {:induction false} AsWrittenClosedForm(z: string)
    requires IsZText(z)
    ensures SdcUtcOffsetMillisAsWritten(z)
      == Ok(SignOf(z) * (HourField(z) * MillisPerHour + (if AsWrittenHalfHour(z) then HalfHourMillis else 0)))
  {
    if z[0] == '+' {
      assert DropLastTwo(z) == ['+', z[1], z[2]];
      assert ['+', z[1], z[2]][1..] == [z[1], z[2]];
      DigitsValueTwo(z[1], z[2]);
      assert |FromIndexTwo(z)| == 3;
    } else if z[1] == '0' {
      var t := z[1..][1..];
      assert t == [z[2], z[3], z[4]];
      assert DropLastTwo(t) == [z[2]];
      DigitsValueOne(z[2]);
      assert |FromIndexTwo(t)| == 1;
    } else {
      var t := z[1..];
      assert t == [z[1], z[2], z[3], z[4]];
      assert DropLastTwo(t) == [z[1], z[2]];
      DigitsValueTwo(z[1], z[2]);
      assert FromIndexTwo(t) == [z[3], z[4]];
      assert [z[3], z[4]] == "30" <==> MinuteField(z) == 30;
    }
  }

  /** Result of negating a successful parse; errors pass through. */
  function Negated(r: Result<int>): Result<int> {
    match r
    case Ok(v) => Ok(-v)
    case Err(e) => Err(e)
  }

  /**
   * A leading `-` makes the result the negation of what the rest of the text
   * parses to (when the rest does not itself start with `-`), errors included.
   */
  lemma {:induction false} LeadingMinusNegates(t: string)
    requires |t| == 0 || t[0] != '-'
    ensures SdcUtcOffsetMillisAsWritten("-" + t) == Negated(SdcUtcOffsetMillisAsWritten(t))
  {
  }

  /** On `%z` text the sign character alone decides the sign of the result. */
  lemma SignOfAsWritten(z: string)
    requires IsZText(z)
    ensures SdcUtcOffsetMillisAsWritten(z).Ok?
    ensures z[0] == '+' ==> SdcUtcOffsetMillisAsWritten(z).value >= 0
    ensures z[0] == '-' ==> SdcUtcOffsetMillisAsWritten(z).value <= 0
    ensures SdcUtcOffsetMillisAsWritten(z).value == 0 <==> HourField(z) == 0 && !AsWrittenHalfHour(z)
  {
    AsWrittenClosedForm(z);
  }

  /**
   * Minute digits matter to the as-written parser only through the exact
   * `30` test: two `%z` texts with the same sign and hours, both or neither
   * showing 30 minutes, parse to the same value.
   */
  lemma MinutesIgnoredAsWritten(z1: string, z2: string)
    requires IsZText(z1) && IsZText(z2)
    requires z1[..3] == z2[..3]
    requires (MinuteField(z1) == 30) == (MinuteField(z2) == 30)
    ensures SdcUtcOffsetMillisAsWritten(z1) == SdcUtcOffsetMillisAsWritten(z2)
  {
    assert z1[0] == z1[..3][0] && z1[1] == z1[..3][1] && z1[2] == z1[..3][2];
    assert z2[0] == z2[..3][0] && z2[1] == z2[..3][1] && z2[2] == z2[..3][2];
    AsWrittenClosedForm(z1);
    AsWrittenClosedForm(z2);
  }

  /** The offsets the script's own parser yields on typical `%z` texts. */
  lemma AsWrittenExamples()
    ensures SdcUtcOffsetMillisAsWritten("-0800") == Ok(-28_800_000)
    ensures SdcUtcOffsetMillisAsWritten("+0000") == Ok(0)
    ensures SdcUtcOffsetMillisAsWritten("-1030") == Ok(-37_800_000)
    ensures SdcUtcOffsetMillisAsWritten("+0530") == Ok(18_000_000)
    ensures SdcUtcOffsetMillisAsWritten("-0330") == Ok(-10_800_000)
  {
    AsWrittenExample("-0800", -1, 8, false);
    AsWrittenExample("+0000", 1, 0, false);
    AsWrittenExample("-1030", -1, 10, true);
    AsWrittenExample("+0530", 1, 5, false);
    AsWrittenExample("-0330", -1, 3, false);
  }

  lemma AsWrittenExample(z: string, sign: int, hours: nat, half: bool)
    requires IsZText(z) && SignOf(z) == sign && HourField(z) == hours && AsWrittenHalfHour(z) == half
    ensures SdcUtcOffsetMillisAsWritten(z) == Ok(sign * (hours * MillisPerHour + (if half then HalfHourMillis else 0)))
  {
    AsWrittenClosedForm(z);
  }

  // ---------------------------------------------------------------------
  // The intended parser

  /**
   * The offset the script means to compute: sign, two hour digits, and half
   * an hour more when the minute digits are `30`. Text that is not `±HHMM`
   * is rejected. Like the script, it supports only whole- and half-hour
   * zones: any other minute digits (`+0545`, `+1245`) are dropped and the
   * whole hours are returned.
   */
  function SdcUtcOffsetMillis(z: string): (r: Result<int>)
    ensures r.Ok? <==> IsZText(z)
    ensures r.Ok? && (MinuteField(z) == 0 || MinuteField(z) == 30)
      ==> r.value == SignOf(z) * (HourField(z) * 60 + MinuteField(z)) * MillisPerMinute
    ensures r.Ok? ==> r.value % HalfHourMillis == 0
  {
    if !IsZText(z) then Err(ValueError)
    else
      var negativeOffset := z[0] == '-';
      var offsetHours := HourField(z);
      var halfHour := z[3..5] == "30";
      assert halfHour <==> MinuteField(z) == 30 by {
        assert z[3..5] == [z[3], z[4]];
      }
      HalfHourMultiple(offsetHours, halfHour);
      var offsetMillis := offsetHours * MillisPerHour + (if halfHour then HalfHourMillis else 0);
      Ok(if negativeOffset then -offsetMillis else offsetMillis)
  }

  /**
   * The two parsers agree on a `%z` text exactly when it does not show 30
   * minutes with a `+` sign or with a leading `0` hour digit.
   */
  lemma AsWrittenAgreesUnlessHalfHourMissed(z: string)
    requires IsZText(z)
    ensures SdcUtcOffsetMillisAsWritten(z) == SdcUtcOffsetMillis(z)
      <==> !(MinuteField(z) == 30 && (z[0] == '+' || z[1] == '0'))
  {
    AsWrittenClosedForm(z);
    assert z[3..5] == [z[3], z[4]];
  }

  /** The inputs that show the half-hour test going wrong, beside the intended values. */
  lemma HalfHourZonesMisread()
    ensures SdcUtcOffsetMillisAsWritten("+0530") == Ok(18_000_000)
    ensures SdcUtcOffsetMillis("+0530") == Ok(19_800_000)
    ensures SdcUtcOffsetMillisAsWritten("-0330") == Ok(-10_800_000)
    ensures SdcUtcOffsetMillis("-0330") == Ok(-12_600_000)
  {
    AsWrittenExample("+0530", 1, 5, false);
    AsWrittenExample("-0330", -1, 3, false);
    IntendedExample("+0530", 1, 5, 30);
    IntendedExample("-0330", -1, 3, 30);
  }

  lemma IntendedExample(z: string, sign: int, hours: nat, minutes: nat)
    requires IsZText(z) && SignOf(z) == sign && HourField(z) == hours && MinuteField(z) == minutes
    requires minutes == 0 || minutes == 30
    ensures SdcUtcOffsetMillis(z) == Ok(sign * (hours * 60 + minutes) * MillisPerMinute)
  {
  }
}
