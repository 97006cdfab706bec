/**
 * Time stamps of src/utils.cpp: `tmToDateTime`, which turns the C library's broken-down time
 * into RTClib's calendar fields, and `get_current_time`, which prints the real-time clock's
 * reading either as a log time stamp or as a file name stamp rounded down to the quarter hour.
 *
 * The clock's reading is a parameter; RTClib itself is not part of this model.
 */
module Clock {
  import opened Text

  /** `struct tm`: years since 1900 and months from 0, as the C library counts them. */
  datatype Tm = Tm(tmYear: int, tmMon: int, tmMday: int, tmHour: int, tmMin: int, tmSec: int)

  /** RTClib's `DateTime` fields as its accessors return them: full year, month from 1. */
  datatype DateTime = DateTime(year: nat, month: nat, day: nat, hour: nat, minute: nat, second: nat)

  /** The ranges `struct tm` guarantees for a normalised time from 1900 on. */
  predicate TmValid(t: Tm)
  {
    0 <= t.tmYear && 0 <= t.tmMon <= 11 && 1 <= t.tmMday <= 31 &&
    0 <= t.tmHour <= 23 && 0 <= t.tmMin <= 59 && 0 <= t.tmSec <= 60
  }

  /** The calendar ranges of a `DateTime` reading. */
  predicate DateTimeValid(d: DateTime)
  {
    1 <= d.month <= 12 && 1 <= d.day <= 31 && d.hour <= 23 && d.minute <= 59 && d.second <= 60
  }

  /** `tmToDateTime`: the year shifted by 1900 and the month by one, the other fields as they are. */
  function TmToDateTime(t: Tm): (d: DateTime)
    requires TmValid(t)
    ensures DateTimeValid(d) && d.year >= 1900
  {
    DateTime(t.tmYear + 1900, t.tmMon + 1, t.tmMday, t.tmHour, t.tmMin, t.tmSec)
  }

  /** The broken-down time of a calendar reading from 1900 on: the inverse of `tmToDateTime`. */
  function DateTimeToTm(d: DateTime): (t: Tm)
    requires DateTimeValid(d) && d.year >= 1900
    ensures TmValid(t) && TmToDateTime(t) == d
  {
    Tm(d.year - 1900, d.month - 1, d.day, d.hour, d.minute, d.second)
  }

  /** `tmToDateTime` loses nothing: converting back gives the same broken-down time. */
  lemma TmRoundTrip(t: Tm)
    requires TmValid(t)
    ensures DateTimeToTm(TmToDateTime(t)) == t
  {
  }

  /** The size of `get_current_time`'s buffer; `snprintf` keeps at most one character less. */
  const STAMP_BUFFER: int := 20

  /** The minute rounded down to its quarter hour, as the integer division in the code does. */
  function QuarterOf(minute: nat): (r: nat)
    ensures r % 15 == 0 && r <= minute < r + 15
  {
    (minute / 15) * 15
  }

  /** "%04d/%02d/%02d %02d:%02d:%02d" of a reading, cut to the buffer. */
  function Timestamp(d: DateTime): (r: string)
    ensures |r| <= STAMP_BUFFER - 1
  {
    Prefix(ZeroPad(d.year, 4) + "/" + ZeroPad(d.month, 2) + "/" + ZeroPad(d.day, 2) + " " +
           ZeroPad(d.hour, 2) + ":" + ZeroPad(d.minute, 2) + ":" + ZeroPad(d.second, 2), STAMP_BUFFER - 1)
  }

  /** "%04d_%02d_%02d_%02d_%02d" of a reading with its minute rounded down to the quarter hour. */
  function FileStamp(d: DateTime): (r: string)
    ensures |r| <= STAMP_BUFFER - 1
  {
    Prefix(ZeroPad(d.year, 4) + "_" + ZeroPad(d.month, 2) + "_" + ZeroPad(d.day, 2) + "_" +
           ZeroPad(d.hour, 2) + "_" + ZeroPad(QuarterOf(d.minute), 2), STAMP_BUFFER - 1)
  }

  /** A year with four digits: the clock readings both formats print in full. */
  predicate FourDigitYear(d: DateTime) { d.year <= 9999 }

  /**
   * The log time stamp of a calendar reading with a four-digit year has exactly 19 characters,
   * with the separators at fixed places, and every field reads back from its place.
   */
  lemma {:induction false} TimestampReadsBack(d: DateTime)
    requires DateTimeValid(d) && FourDigitYear(d)
    ensures var r := Timestamp(d);
      |r| == 19 &&
      r[4] == '/' && r[7] == '/' && r[10] == ' ' && r[13] == ':' && r[16] == ':' &&
      AllDigits(r[0..4]) && AllDigits(r[5..7]) && AllDigits(r[8..10]) &&
      AllDigits(r[11..13]) && AllDigits(r[14..16]) && AllDigits(r[17..19]) &&
      DigitsValue(r[0..4]) == d.year && DigitsValue(r[5..7]) == d.month &&
      DigitsValue(r[8..10]) == d.day && DigitsValue(r[11..13]) == d.hour &&
      DigitsValue(r[14..16]) == d.minute && DigitsValue(r[17..19]) == d.second
  {
    ZeroPadExact(d.year, 4);
    ZeroPadExact(d.month, 2);
    ZeroPadExact(d.day, 2);
    ZeroPadExact(d.hour, 2);
    ZeroPadExact(d.minute, 2);
    ZeroPadExact(d.second, 2);
    var r := Timestamp(d);
    assert r[0..4] == ZeroPad(d.year, 4);
    assert r[5..7] == ZeroPad(d.month, 2);
    assert r[8..10] == ZeroPad(d.day, 2);
    assert r[11..13] == ZeroPad(d.hour, 2);
    assert r[14..16] == ZeroPad(d.minute, 2);
    assert r[17..19] == ZeroPad(d.second, 2);
  }

  /**
   * The file name stamp has exactly 16 characters and reads back as the date, the hour and the
   * start of the quarter hour.
   */
  lemma {:induction false} FileStampReadsBack(d: DateTime)
    requires DateTimeValid(d) && FourDigitYear(d)
    ensures var r := FileStamp(d);
      |r| == 16 &&
      r[4] == '_' && r[7] == '_' && r[10] == '_' && r[13] == '_' &&
      AllDigits(r[0..4]) && AllDigits(r[5..7]) && AllDigits(r[8..10]) &&
      AllDigits(r[11..13]) && AllDigits(r[14..16]) &&
      DigitsValue(r[0..4]) == d.year && DigitsValue(r[5..7]) == d.month &&
      DigitsValue(r[8..10]) == d.day && DigitsValue(r[11..13]) == d.hour &&
      DigitsValue(r[14..16]) == QuarterOf(d.minute)
  {
    ZeroPadExact(d.year, 4);
    ZeroPadExact(d.month, 2);
    ZeroPadExact(d.day, 2);
    ZeroPadExact(d.hour, 2);
    ZeroPadExact(QuarterOf(d.minute), 2);
    var r := FileStamp(d);
    assert r[0..4] == ZeroPad(d.year, 4);
    assert r[5..7] == ZeroPad(d.month, 2);
    assert r[8..10] == ZeroPad(d.day, 2);
    assert r[11..13] == ZeroPad(d.hour, 2);
    assert r[14..16] == ZeroPad(QuarterOf(d.minute), 2);
  }

  /**
   * Two readings get the same file name stamp exactly when they fall in the same quarter hour of
   * the same hour and day: a file started at 10:07 is named as one started at 10:00 or 10:14,
   * not as one started at 10:15.
   */
  lemma SameFileIffSameQuarter(d1: DateTime, d2: DateTime)
    requires DateTimeValid(d1) && FourDigitYear(d1) && DateTimeValid(d2) && FourDigitYear(d2)
    ensures FileStamp(d1) == FileStamp(d2) <==>
      d1.year == d2.year && d1.month == d2.month && d1.day == d2.day && d1.hour == d2.hour &&
      d1.minute / 15 == d2.minute / 15
  {
    FileStampReadsBack(d1);
    FileStampReadsBack(d2);
    var a := FileStamp(d1);
    var b := FileStamp(d2);
    if a == b {
      assert a[14..16] == b[14..16];
      assert QuarterOf(d1.minute) == QuarterOf(d2.minute);
    }
  }

  /**
   * `get_current_time(getFilename)` for the clock reading `now`: the text `snprintf` leaves in
   * the buffer. For a calendar reading with a four-digit year it is the whole 16-character file
   * name stamp or the whole 19-character log time stamp.
   */
  function GetCurrentTime(now: DateTime, getFilename: bool): (r: string)
    ensures |r| <= STAMP_BUFFER - 1
    ensures DateTimeValid(now) && FourDigitYear(now) ==>
      |r| == (if getFilename then 16 else 19) &&
      AllDigits(r[0..4]) && AllDigits(r[5..7]) && AllDigits(r[8..10]) &&
      AllDigits(r[11..13]) && AllDigits(r[14..16]) &&
      DigitsValue(r[0..4]) == now.year && DigitsValue(r[5..7]) == now.month &&
      DigitsValue(r[8..10]) == now.day && DigitsValue(r[11..13]) == now.hour &&
      DigitsValue(r[14..16]) == (if getFilename then QuarterOf(now.minute) else now.minute)
  {
    if DateTimeValid(now) && FourDigitYear(now) then
      FileStampReadsBack(now);
      TimestampReadsBack(now);
      if getFilename then FileStamp(now) else Timestamp(now)
    else if getFilename then FileStamp(now) else Timestamp(now)
  }

  /** Readings that differ in any printed field get different log time stamps. */
  lemma TimestampInjective(d1: DateTime, d2: DateTime)
    requires DateTimeValid(d1) && FourDigitYear(d1) && DateTimeValid(d2) && FourDigitYear(d2)
    ensures Timestamp(d1) == Timestamp(d2) <==> d1 == d2
  {
    TimestampReadsBack(d1);
    TimestampReadsBack(d2);
  }
}
