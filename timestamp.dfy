/**
 * Date-times as Python's `datetime` holds them, with the text forms that
 * `datetime.fromisoformat` reads and `datetime.isoformat` writes, restricted
 * to the grammar
 *
 *   YYYY-MM-DD [ 'T' HH:MM [ ':' SS [ '.' fff | '.' ffffff ] ] [ ('+'|'-') HH:MM ] ]
 *
 * `isoformat` always writes the seconds, writes six fraction digits only
 * when the microsecond is not zero, and writes the offset as `+HH:MM` or
 * `-HH:MM` (a zero offset as `+00:00`).
 */
module Timestamp {
  import opened Wrappers
  import opened Text
  import opened Calendar

  datatype Time = Time(hour: int, minute: int, second: int, micro: int)

  /** A naive date-time when `offset` is `None`, otherwise one with a fixed UTC offset in minutes. */
  datatype DateTime = DateTime(date: Date, time: Time, offset: Option<int>)

  predicate ValidTime(t: Time)
  {
    0 <= t.hour < 24 && 0 <= t.minute < 60 && 0 <= t.second < 60 && 0 <= t.micro < 1000000
  }

  /** Python's `timezone` accepts offsets strictly within one day. */
  predicate ValidOffset(o: Option<int>)
  {
    o.Some? ==> -1440 < o.value < 1440
  }

  predicate ValidDateTime(dt: DateTime)
  {
    ValidDate(dt.date) && ValidTime(dt.time) && ValidOffset(dt.offset)
  }

  predicate IsTimeChar(c: char)
  {
    IsDigit(c) || c == ':' || c == '.'
  }

  // --------------------------------------------------------------- isoformat

  function FormatTime(t: Time): (s: string)
    requires ValidTime(t)
    ensures |s| == if t.micro == 0 then 8 else 15
    ensures forall i :: 0 <= i < |s| ==> IsTimeChar(s[i])
  {
    var hms := PadDigits(t.hour, 2) + ":" + PadDigits(t.minute, 2) + ":" + PadDigits(t.second, 2);
    assert forall i :: 0 <= i < |hms| ==> IsTimeChar(hms[i]);
    if t.micro == 0 then hms
    else
      var frac := "." + PadDigits(t.micro, 6);
      assert forall i :: 0 <= i < |frac| ==> IsTimeChar(frac[i]);
      hms + frac
  }

  function FormatOffset(o: Option<int>): (s: string)
    requires ValidOffset(o)
    ensures o.None? <==> s == ""
    ensures o.Some? ==> |s| == 6 && s[0] in {'+', '-'}
  {
    match o
    case None => ""
    case Some(m) =>
      var a := if m < 0 then -m else m;
      (if m < 0 then "-" else "+") + PadDigits(a / 60, 2) + ":" + PadDigits(a % 60, 2)
  }

  /** `dt.isoformat()`. */
  function Format(dt: DateTime): (s: string)
    requires ValidDateTime(dt)
    ensures |s| > 10
  {
    FormatDate(dt.date) + "T" + FormatTime(dt.time) + FormatOffset(dt.offset)
  }

  // ------------------------------------------------------------ fromisoformat

  /** `HH:MM`, `HH:MM:SS`, `HH:MM:SS.fff` or `HH:MM:SS.ffffff`, in range. */
  function ParseTime(s: string): Option<Time>
  {
    if (|s| == 5 || |s| == 8 || |s| == 12 || |s| == 15)
       && s[2] == ':' && AllDigits(s[..2]) && AllDigits(s[3..5])
       && (|s| >= 8 ==> s[5] == ':' && AllDigits(s[6..8]))
       && (|s| >= 12 ==> s[8] == '.' && AllDigits(s[9..]))
    then
      var t := Time(DigitsValue(s[..2]), DigitsValue(s[3..5]),
                    if |s| >= 8 then DigitsValue(s[6..8]) else 0,
                    if |s| == 12 then DigitsValue(s[9..]) * 1000
                    else if |s| == 15 then DigitsValue(s[9..]) else 0);
      if ValidTime(t) then Some(t) else None
    else None
  }

  /** `+HH:MM` or `-HH:MM` with hours below 24 and minutes below 60, as signed minutes. */
  function ParseOffset(s: string): Option<int>
  {
    if |s| == 6 && (s[0] == '+' || s[0] == '-') && s[3] == ':'
       && AllDigits(s[1..3]) && AllDigits(s[4..])
       && DigitsValue(s[1..3]) < 24 && DigitsValue(s[4..]) < 60
    then
      var a := DigitsValue(s[1..3]) * 60 + DigitsValue(s[4..]);
      Some(if s[0] == '-' then -a else a)
    else None
  }

  /**
   * `datetime.fromisoformat(s)`: a bare date is midnight without an offset;
   * otherwise `T`, a time, and an offset when the last six characters start
   * with a sign. `None` is the `ValueError` case.
   */
  function Parse(s: string): (r: Option<DateTime>)
    ensures r.Some? ==> ValidDateTime(r.value)
  {
    if |s| == 10 then
      match ParseDate(s)
      case None => None
      case Some(d) => Some(DateTime(d, Time(0, 0, 0, 0), None))
    else if |s| > 11 && s[10] == 'T' then
      match ParseDate(s[..10])
      case None => None
      case Some(d) =>
        var rest := s[11..];
        if |rest| >= 6 && rest[|rest| - 6] in {'+', '-'} then
          match (ParseTime(rest[..|rest| - 6]), ParseOffset(rest[|rest| - 6..]))
          case (Some(t), Some(o)) => Some(DateTime(d, t, Some(o)))
          case _ => None
        else
          match ParseTime(rest)
          case None => None
          case Some(t) => Some(DateTime(d, t, None))
    else None
  }

  // ------------------------------------------------------------- round trip

  lemma ParseFormatTime(t: Time)
    requires ValidTime(t)
    ensures ParseTime(FormatTime(t)) == Some(t)
  {
    var s := FormatTime(t);
    var h, m, sec := PadDigits(t.hour, 2), PadDigits(t.minute, 2), PadDigits(t.second, 2);
    assert s[..2] == h && s[3..5] == m && s[6..8] == sec;
    ValueOfPadDigits(t.hour, 2);
    ValueOfPadDigits(t.minute, 2);
    ValueOfPadDigits(t.second, 2);
    if t.micro != 0 {
      assert s[9..] == PadDigits(t.micro, 6);
      ValueOfPadDigits(t.micro, 6);
    }
  }

  lemma ParseFormatOffset(o: int)
    requires ValidOffset(Some(o))
    ensures ParseOffset(FormatOffset(Some(o))) == Some(o)
  {
    var s := FormatOffset(Some(o));
    var a := if o < 0 then -o else o;
    assert s[1..3] == PadDigits(a / 60, 2) && s[4..] == PadDigits(a % 60, 2);
    ValueOfPadDigits(a / 60, 2);
    ValueOfPadDigits(a % 60, 2);
  }

  /** Every representable date-time reads back from what `isoformat` writes. */
  lemma {:induction false} ParseFormat(dt: DateTime)
    requires ValidDateTime(dt)
    ensures Parse(Format(dt)) == Some(dt)
  {
    var s := Format(dt);
    assert s[..10] == FormatDate(dt.date) && s[10] == 'T';
    ParseFormatDate(dt.date);
    ParseFormatTime(dt.time);
    ParseFormatRest(dt, s[11..]);
  }

  /** What follows the `T` reads back as the time and the offset. */
  lemma ParseFormatRest(dt: DateTime, rest: string)
    requires ValidDateTime(dt) && rest == FormatTime(dt.time) + FormatOffset(dt.offset)
    requires ParseTime(FormatTime(dt.time)) == Some(dt.time)
    ensures |rest| >= 6 && rest[|rest| - 6] in {'+', '-'} ==>
              ParseTime(rest[..|rest| - 6]) == Some(dt.time) && ParseOffset(rest[|rest| - 6..]) == dt.offset
    ensures !(|rest| >= 6 && rest[|rest| - 6] in {'+', '-'}) ==>
              ParseTime(rest) == Some(dt.time) && dt.offset.None?
  {
    var ts, os := FormatTime(dt.time), FormatOffset(dt.offset);
    match dt.offset
    case None =>
      assert rest == ts;
      assert IsTimeChar(rest[|rest| - 6]);
    case Some(o) =>
      assert rest[..|rest| - 6] == ts && rest[|rest| - 6..] == os;
      ParseFormatOffset(o);
  }

  /** `isoformat` never writes a `Z`. */
  lemma NoZInFormat(dt: DateTime)
    requires ValidDateTime(dt)
    ensures 'Z' !in Format(dt)
  {
    var ds, ts, os := FormatDate(dt.date), FormatTime(dt.time), FormatOffset(dt.offset);
    assert 'Z' !in ds;
    assert 'Z' !in ts by { assert forall i :: 0 <= i < |ts| ==> IsTimeChar(ts[i]); }
    assert 'Z' !in os;
    assert Format(dt) == ds + "T" + ts + os;
  }
}
