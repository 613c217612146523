/**
 * The script that moves yesterday's pages of a calendar database to today:
 * it queries the pages whose date property falls on yesterday, and rewrites
 * each one's start (and end, when it has one) to today's date, keeping the
 * time of day and the UTC offset.
 *
 * The remote query and update calls are not modelled: the query's result is
 * an input (`pages`) and each update request is returned as a value.
 */
module UpdateToYesterday {
  import opened Wrappers
  import opened Text
  import opened Calendar
  import opened Timestamp

  // ------------------------------------------------ shift_date_preserving_time

  datatype ShiftError =
    | MalformedTimestamp    // fromisoformat raised
    | MalformedTargetDate   // the target is not three '-'-separated integers
    | InvalidTargetDate     // datetime.replace raised: no such day, month or year

  /** `map(int, new_date.split('-'))` unpacked into year, month and day (decimal digits only). */
  function ParseTargetDate(s: string): Option<Date>
  {
    var parts := Split(s, '-');
    if |parts| == 3 && forall i :: 0 <= i < 3 ==> parts[i] != [] && AllDigits(parts[i])
    then Some(Date(DigitsValue(parts[0]), DigitsValue(parts[1]), DigitsValue(parts[2])))
    else None
  }

  /**
   * `shift_date_preserving_time(dt_str, new_date)`: read `dt_str` with every
   * `Z` replaced by `+00:00`, put the target's year, month and day in place
   * of its own, and write it back with `isoformat`.
   */
  function ShiftDatePreservingTime(dtStr: string, newDate: string): Result<string, ShiftError>
  {
    match Parse(ReplaceAll(dtStr, "Z", "+00:00"))
    case None => Err(MalformedTimestamp)
    case Some(dt) =>
      match ParseTargetDate(newDate)
      case None => Err(MalformedTargetDate)
      case Some(d) =>
        if ValidDate(d) then Ok(Format(dt.(date := d))) else Err(InvalidTargetDate)
  }

  /** `strftime("%Y-%m-%d")` output is its three digit fields joined by `-`. */
  lemma FormatDateIsJoin(d: Date)
    requires ValidDate(d)
    ensures Join([PadDigits(d.year, 4), PadDigits(d.month, 2), PadDigits(d.day, 2)], '-') == FormatDate(d)
  {
    var y, m, dd := PadDigits(d.year, 4), PadDigits(d.month, 2), PadDigits(d.day, 2);
    var parts := [y, m, dd];
    assert parts[1..] == [m, dd] && parts[1..][1..] == [dd];
    assert Join(parts[1..], '-') == m + "-" + dd;
  }

  /** `strftime("%Y-%m-%d")` output is read back by the target-date parser. */
  lemma ParseTargetOfFormatDate(d: Date)
    requires ValidDate(d)
    ensures ParseTargetDate(FormatDate(d)) == Some(d)
  {
    var y, m, dd := PadDigits(d.year, 4), PadDigits(d.month, 2), PadDigits(d.day, 2);
    var parts := [y, m, dd];
    DigitsExclude(y, '-');
    DigitsExclude(m, '-');
    DigitsExclude(dd, '-');
    FormatDateIsJoin(d);
    SplitJoin(parts, '-');
    assert Split(FormatDate(d), '-') == parts;
    ValueOfPadDigits(d.year, 4);
    ValueOfPadDigits(d.month, 2);
    ValueOfPadDigits(d.day, 2);
  }

  /**
   * A shift that succeeds yields a timestamp whose date is the target date and
   * whose time of day (to the microsecond) and offset are the input's.
   */
  lemma ShiftKeepsTimeAndOffset(dtStr: string, newDate: string)
    requires ShiftDatePreservingTime(dtStr, newDate).Ok?
    ensures var dt := Parse(ReplaceAll(dtStr, "Z", "+00:00")).value;
            Parse(ShiftDatePreservingTime(dtStr, newDate).value)
              == Some(DateTime(ParseTargetDate(newDate).value, dt.time, dt.offset))
  {
    var dt := Parse(ReplaceAll(dtStr, "Z", "+00:00")).value;
    ParseFormat(dt.(date := ParseTargetDate(newDate).value));
  }

  /**
   * The shift fails exactly when the input does not parse, the target is not
   * three integers, or the target is not a day of the calendar; it never
   * rolls an impossible target over to another day.
   */
  lemma ShiftFailsExactly(dtStr: string, newDate: string)
    ensures ShiftDatePreservingTime(dtStr, newDate).Ok?
      <==> Parse(ReplaceAll(dtStr, "Z", "+00:00")).Some?
           && ParseTargetDate(newDate).Some? && ValidDate(ParseTargetDate(newDate).value)
    ensures ParseTargetDate(newDate).Some? && !ValidDate(ParseTargetDate(newDate).value)
      ==> ShiftDatePreservingTime(dtStr, newDate).Err?
  {
  }

  /** `2024-02-30` is three integers but no day of the calendar, so every shift to it fails. */
  lemma ShiftToFebruary30Fails(dtStr: string, newDate: string)
    requires newDate == "2024-02-30"
    ensures ParseTargetDate(newDate) == Some(Date(2024, 2, 30))
    ensures ShiftDatePreservingTime(dtStr, newDate).Err?
  {
    assert newDate == "2024" + "-" + ("02" + "-" + "30");
    SplitPrefix("2024", '-', "02" + "-" + "30");
    SplitPrefix("02", '-', "30");
    SplitNoSeparator("30", '-');
    var parts := Split(newDate, '-');
    assert parts == ["2024", "02", "30"];
    assert AllDigits("2024") && AllDigits("02") && AllDigits("30");
    assert DigitsValue("2024") == 2024 by {
      assert "2024"[..3] == "202" && "202"[..2] == "20" && "20"[..1] == "2";
    }
    assert DigitsValue("02") == 2 by { assert "02"[..1] == "0"; }
    assert DigitsValue("30") == 30 by { assert "30"[..1] == "3"; }
    assert DaysInMonth(2024, 2) == 29;
  }

  /** Shifting an already shifted timestamp to the same date gives the same string. */
  lemma ShiftIdempotent(dtStr: string, newDate: string)
    requires ShiftDatePreservingTime(dtStr, newDate).Ok?
    ensures var r := ShiftDatePreservingTime(dtStr, newDate).value;
            ShiftDatePreservingTime(r, newDate) == Ok(r)
  {
    var dt := Parse(ReplaceAll(dtStr, "Z", "+00:00")).value;
    var d := ParseTargetDate(newDate).value;
    var shifted := dt.(date := d);
    var r := Format(shifted);
    NoZInFormat(shifted);
    ReplaceCharAbsent(r, 'Z', "+00:00");
    ParseFormat(shifted);
    assert shifted.(date := d) == shifted;
  }

  /** A trailing `+00:00` can only be read as a zero offset. */
  lemma ParseUtcSuffix(p: string)
    ensures Parse(p + "+00:00").Some? ==> Parse(p + "+00:00").value.offset == Some(0)
  {
    var s := p + "+00:00";
    assert s[|s| - 6..] == "+00:00";
    if |s| == 10 {
      assert s[4] == '+';
    } else if 10 < |s| <= 16 {
      assert s[10] == "+00:00"[10 - (|s| - 6)];
    } else if |s| > 16 {
      var rest := s[11..];
      assert rest[|rest| - 6..] == "+00:00";
      assert DigitsValue("00") == 0 by { assert "00"[..1] == "0"; }
      assert ParseOffset("+00:00") == Some(0) by { ParseFormatOffset(0); FormatZeroOffset(); }
    }
  }

  /** `isoformat` writes a zero offset as `+00:00`. */
  lemma FormatZeroOffset()
    ensures FormatOffset(Some(0)) == "+00:00"
  {
    assert PadDigits(0, 2) == "00";
  }

  /**
   * A trailing `Z` is read as `+00:00`: a `...Z` input shifts exactly like the
   * same input ending in `+00:00`, and the result ends in `+00:00`, not `Z`.
   */
  lemma ShiftZuluAsUtc(p: string, newDate: string)
    ensures ShiftDatePreservingTime(p + "Z", newDate) == ShiftDatePreservingTime(p + "+00:00", newDate)
    ensures ShiftDatePreservingTime(p + "Z", newDate).Ok? ==>
      var r := ShiftDatePreservingTime(p + "Z", newDate).value;
      |r| >= 6 && r[|r| - 6..] == "+00:00"
  {
    var q := ReplaceAll(p, "Z", "+00:00");
    assert ReplaceAll(p + "Z", "Z", "+00:00") == q + "+00:00" by {
      ReplaceCharAppend(p, "Z", 'Z', "+00:00");
      assert ReplaceAll("Z", "Z", "+00:00") == "+00:00";
    }
    assert ReplaceAll(p + "+00:00", "Z", "+00:00") == q + "+00:00" by {
      ReplaceCharAppend(p, "+00:00", 'Z', "+00:00");
      ReplaceCharAbsent("+00:00", 'Z', "+00:00");
    }
    ParseUtcSuffix(q);
    if ShiftDatePreservingTime(p + "Z", newDate).Ok? {
      var dt := Parse(q + "+00:00").value.(date := ParseTargetDate(newDate).value);
      var r := Format(dt);
      FormatZeroOffset();
      assert r == FormatDate(dt.date) + "T" + FormatTime(dt.time) + "+00:00";
    }
  }

  /**
   * A date-only value (an all-day page) is read as midnight without offset,
   * so the shift turns it into a timed value at midnight of the target date.
   */
  lemma ShiftDateOnly(dtStr: string, newDate: string)
    requires ParseDate(dtStr).Some?
    requires ParseTargetDate(newDate).Some? && ValidDate(ParseTargetDate(newDate).value)
    ensures ShiftDatePreservingTime(dtStr, newDate)
      == Ok(FormatDate(ParseTargetDate(newDate).value) + "T00:00:00")
  {
    assert 'Z' !in dtStr by {
      DigitsExclude(dtStr[..4], 'Z');
      DigitsExclude(dtStr[5..7], 'Z');
      DigitsExclude(dtStr[8..], 'Z');
      assert dtStr == dtStr[..4] + [dtStr[4]] + dtStr[5..7] + [dtStr[7]] + dtStr[8..];
    }
    ReplaceCharAbsent(dtStr, 'Z', "+00:00");
    var dt := DateTime(ParseDate(dtStr).value, Time(0, 0, 0, 0), None);
    ParseDateOnly(dtStr);
    var d := ParseTargetDate(newDate).value;
    ShiftOfParsed(dtStr, newDate, dt, d);
    FormatMidnight();
    assert Format(dt.(date := d)) == FormatDate(d) + "T" + "00:00:00" + "";
    assert FormatDate(d) + "T" + "00:00:00" + "" == FormatDate(d) + "T00:00:00";
  }

  /** A bare date reads as midnight without an offset. */
  lemma ParseDateOnly(s: string)
    requires ParseDate(s).Some?
    ensures Parse(s) == Some(DateTime(ParseDate(s).value, Time(0, 0, 0, 0), None))
  {
    assert |s| == 10;
  }

  lemma ShiftOfParsed(dtStr: string, newDate: string, dt: DateTime, d: Date)
    requires Parse(ReplaceAll(dtStr, "Z", "+00:00")) == Some(dt)
    requires ParseTargetDate(newDate) == Some(d) && ValidDate(d)
    ensures ShiftDatePreservingTime(dtStr, newDate) == Ok(Format(dt.(date := d)))
  {
  }

  /** `isoformat` writes midnight as `00:00:00`. */
  lemma FormatMidnight()
    ensures FormatTime(Time(0, 0, 0, 0)) == "00:00:00"
  {
    assert PadDigits(0, 2) == "00";
  }

  // ------------------------------------------------------ get_pages_for_date

  /** The `filter` object of the database query: `on_or_after` and `before` dates on one property. */
  datatype DateFilter = DateFilter(property: string, onOrAfter: string, before: string)

  datatype WindowError =
    | MalformedDate   // strptime raised
    | DateOverflow    // the day after 9999-12-31

  /** The one-day window `[target, target + 1 day)` that `get_pages_for_date` queries. */
  function DayWindow(propertyName: string, targetDate: string): Result<DateFilter, WindowError>
  {
    match ParseDate(targetDate)
    case None => Err(MalformedDate)
    case Some(d) =>
      var next := NextDay(d);
      if ValidDate(next) then Ok(DateFilter(propertyName, FormatDate(d), FormatDate(next)))
      else Err(DateOverflow)
  }

  /**
   * The window starts at the queried date itself and ends (exclusively) on the
   * calendar day after it, one ordinal later; it exists for every
   * well-formed date except the last representable one.
   */
  lemma DayWindowIsOneDay(propertyName: string, targetDate: string)
    ensures DayWindow(propertyName, targetDate).Ok?
      <==> ParseDate(targetDate).Some? && ParseDate(targetDate).value != Date(MaxYear, 12, 31)
    ensures DayWindow(propertyName, targetDate).Ok? ==>
      var f, d := DayWindow(propertyName, targetDate).value, ParseDate(targetDate).value;
      && f.property == propertyName
      && f.onOrAfter == targetDate
      && ParseDate(f.before) == Some(NextDay(d))
      && Before(d, NextDay(d))
      && Ordinal(NextDay(d)) == Ordinal(d) + 1
  {
    if ParseDate(targetDate).Some? {
      var d := ParseDate(targetDate).value;
      NextDayInRange(d);
      if ValidDate(NextDay(d)) {
        FormatParseDate(targetDate);
        ParseFormatDate(NextDay(d));
        NextDayOrdinal(d);
      }
    }
  }

  // ------------------------------------------------- yesterday and today

  /** The two dates the script derives from "now" in its fixed time zone. */
  datatype RunDates = RunDates(yesterday: string, today: string)

  /**
   * `(now - timedelta(days=1)).strftime("%Y-%m-%d")` and
   * `now.strftime("%Y-%m-%d")`, for the calendar date of "now" in the zone;
   * `None` is the `OverflowError` on the first representable day.
   */
  function RunDatesFor(now: Date): Option<RunDates>
    requires ValidDate(now)
  {
    var y := PrevDay(now);
    if ValidDate(y) then Some(RunDates(FormatDate(y), FormatDate(now))) else None
  }

  /**
   * The day queried is the predecessor of the target day: the window built
   * from `yesterday` ends exactly where `today` begins.
   */
  lemma YesterdayWindowEndsToday(now: Date, propertyName: string)
    requires ValidDate(now) && now != Date(MinYear, 1, 1)
    ensures RunDatesFor(now).Some?
    ensures var rd := RunDatesFor(now).value;
            && ParseDate(rd.yesterday) == Some(PrevDay(now))
            && NextDay(PrevDay(now)) == now
            && DayWindow(propertyName, rd.yesterday) == Ok(DateFilter(propertyName, rd.yesterday, rd.today))
  {
    PrevDayInRange(now);
    NextPrevInverse(now);
    ParseFormatDate(PrevDay(now));
  }

  // ---------------------------------------------------------- update_page_date

  /**
   * An update request: the page and its `properties` argument. Each property
   * maps to its `date` object, with keys `start` and possibly `end`.
   */
  datatype PageUpdate = PageUpdate(pageId: string, properties: map<string, map<string, string>>)

  /**
   * The request `update_page_date` sends: the reference definition, which
   * the method `UpdatePageDate` (the code's map updates) is proved to build.
   */
  function DateUpdate(pageId: string, propertyName: string, newStart: string, newEnd: Option<string>): PageUpdate
  {
    var date := map["start" := newStart];
    PageUpdate(pageId, map[propertyName := if Truthy(newEnd) then date["end" := newEnd.value] else date])
  }

  /**
   * `update_page_date`: the `properties` argument names only the given property;
   * its date has `start` always and `end` exactly when `new_end` is truthy.
   */
  method UpdatePageDate(pageId: string, propertyName: string, newStart: string, newEnd: Option<string>)
    returns (u: PageUpdate)
    ensures u.pageId == pageId && u.properties.Keys == {propertyName}
    ensures u.properties[propertyName].Keys == if Truthy(newEnd) then {"start", "end"} else {"start"}
    ensures u.properties[propertyName]["start"] == newStart
    ensures Truthy(newEnd) ==> u.properties[propertyName]["end"] == newEnd.value
    ensures u == DateUpdate(pageId, propertyName, newStart, newEnd)
  {
    var properties := map[propertyName := map["start" := newStart]];
    if newEnd.Some? && newEnd.value != "" {
      properties := properties[propertyName := properties[propertyName]["end" := newEnd.value]];
    }
    u := PageUpdate(pageId, properties);
  }

  // ------------------------------------------------------------- the driver

  /**
   * What `page['properties'].get(name, {}).get('date', {})` finds for a
   * property that the page has: no `date` key, a JSON null, or a date object
   * whose `start`/`end` may be missing or null.
   */
  datatype DateSlot = NoDate | NullDate | DateValue(start: Option<string>, end: Option<string>)

  datatype Page = Page(id: string, properties: map<string, DateSlot>)

  /** Why the script stops: every exception in its loop is uncaught. */
  datatype SyncFailure =
    | NullDateObject(pageId: string)               // `None.get('start')`
    | ShiftFailed(pageId: string, error: ShiftError)

  datatype Step = Skip | Update(update: PageUpdate) | Abort(failure: SyncFailure)

  function SlotOf(page: Page, propertyName: string): DateSlot
  {
    if propertyName in page.properties then page.properties[propertyName] else NoDate
  }

  /** The start value the loop reads, `None` when there is none. */
  function StartOf(page: Page, propertyName: string): Option<string>
  {
    match SlotOf(page, propertyName)
    case DateValue(start, _) => start
    case _ => None
  }

  /**
   * One iteration of the loop in the script's main block: the reference
   * definition, which the loop body `UpdatePage` is proved to compute and
   * `Sync` folds over the pages.
   */
  function PageStep(page: Page, propertyName: string, today: string): Step
  {
    match SlotOf(page, propertyName)
    case NullDate => Abort(NullDateObject(page.id))
    case NoDate => Skip
    case DateValue(start, end) =>
      if !Truthy(start) then Skip
      else
        match ShiftDatePreservingTime(start.value, today)
        case Err(e) => Abort(ShiftFailed(page.id, e))
        case Ok(newStart) =>
          if !Truthy(end) then Update(DateUpdate(page.id, propertyName, newStart, None))
          else
            match ShiftDatePreservingTime(end.value, today)
            case Err(e) => Abort(ShiftFailed(page.id, e))
            case Ok(newEnd) => Update(DateUpdate(page.id, propertyName, newStart, Some(newEnd)))
  }

  /** The updates issued, in order, and the failure that ended the run early, if any. */
  datatype SyncRun = SyncRun(updates: seq<PageUpdate>, failure: Option<SyncFailure>)

  /** The whole loop over the query result: stops at the first failure. */
  function Sync(pages: seq<Page>, propertyName: string, today: string): SyncRun
  {
    if pages == [] then SyncRun([], None)
    else
      var r := Sync(pages[..|pages| - 1], propertyName, today);
      if r.failure.Some? then r
      else
        match PageStep(pages[|pages| - 1], propertyName, today)
        case Skip => r
        case Update(u) => r.(updates := r.updates + [u])
        case Abort(f) => r.(failure := Some(f))
  }

  /** Pages whose start value is truthy. */
  function CountWithStart(pages: seq<Page>, propertyName: string): nat
  {
    if pages == [] then 0
    else CountWithStart(pages[..|pages| - 1], propertyName)
         + if Truthy(StartOf(pages[|pages| - 1], propertyName)) then 1 else 0
  }

  /**
   * A page is updated only if it had a start, with the start shifted to
   * `today`, and with an end exactly when it had one (shifted the same way).
   */
  lemma PageStepUpdate(page: Page, propertyName: string, today: string)
    requires PageStep(page, propertyName, today).Update?
    ensures Truthy(StartOf(page, propertyName))
    ensures var u := PageStep(page, propertyName, today).update;
            var slot := SlotOf(page, propertyName);
            && u.pageId == page.id
            && u.properties.Keys == {propertyName}
            && u.properties[propertyName]["start"] == ShiftDatePreservingTime(slot.start.value, today).value
            && ("end" in u.properties[propertyName] <==> Truthy(slot.end))
            && (Truthy(slot.end) ==>
                  u.properties[propertyName]["end"] == ShiftDatePreservingTime(slot.end.value, today).value)
  {
    var slot := SlotOf(page, propertyName);
    if Truthy(slot.end) {
      var r := ShiftDatePreservingTime(slot.end.value, today).value;
      assert |Format(Parse(ReplaceAll(slot.end.value, "Z", "+00:00")).value
                      .(date := ParseTargetDate(today).value))| > 10;
      assert r != "";
    }
  }

  /** Once the run has failed, later pages change nothing. */
  lemma {:induction false} SyncStopsAtFailure(pages: seq<Page>, propertyName: string, today: string, i: nat)
    requires i <= |pages|
    requires Sync(pages[..i], propertyName, today).failure.Some?
    ensures Sync(pages, propertyName, today) == Sync(pages[..i], propertyName, today)
  {
    if i < |pages| {
      assert pages[..|pages| - 1][..i] == pages[..i];
      SyncStopsAtFailure(pages[..|pages| - 1], propertyName, today, i);
    } else {
      assert pages[..i] == pages;
    }
  }

  /**
   * At most one update per page with a start; exactly one per such page when
   * the run did not fail.
   */
  lemma {:induction false} SyncUpdatesCounted(pages: seq<Page>, propertyName: string, today: string)
    ensures |Sync(pages, propertyName, today).updates| <= CountWithStart(pages, propertyName)
    ensures Sync(pages, propertyName, today).failure.None? ==>
      |Sync(pages, propertyName, today).updates| == CountWithStart(pages, propertyName)
  {
    if pages != [] {
      var last := pages[|pages| - 1];
      SyncUpdatesCounted(pages[..|pages| - 1], propertyName, today);
      if PageStep(last, propertyName, today).Update? {
        PageStepUpdate(last, propertyName, today);
      }
    }
  }

  /** Every update issued is the update step of one of the pages. */
  lemma {:induction false} SyncUpdatesFromPages(pages: seq<Page>, propertyName: string, today: string, k: nat)
    requires k < |Sync(pages, propertyName, today).updates|
    ensures exists j :: (0 <= j < |pages|
      && PageStep(pages[j], propertyName, today) == Update(Sync(pages, propertyName, today).updates[k]))
  {
    var init := pages[..|pages| - 1];
    var r := Sync(init, propertyName, today);
    if k < |r.updates| {
      SyncUpdatesFromPages(init, propertyName, today, k);
      var j :| 0 <= j < |init| && PageStep(init[j], propertyName, today) == Update(r.updates[k]);
      assert pages[j] == init[j];
    } else {
      assert PageStep(pages[|pages| - 1], propertyName, today) == Update(Sync(pages, propertyName, today).updates[k]);
    }
  }

  /** An updated page's new start is on `today`, with the time of day and offset it had. */
  lemma PageStepLandsOnToday(page: Page, propertyName: string, today: Date)
    requires ValidDate(today)
    requires PageStep(page, propertyName, FormatDate(today)).Update?
    ensures Truthy(StartOf(page, propertyName))
    ensures var u := PageStep(page, propertyName, FormatDate(today)).update;
            var dt := Parse(ReplaceAll(StartOf(page, propertyName).value, "Z", "+00:00")).value;
            Parse(u.properties[propertyName]["start"]) == Some(DateTime(today, dt.time, dt.offset))
  {
    var t := FormatDate(today);
    PageStepUpdate(page, propertyName, t);
    ParseTargetOfFormatDate(today);
    ShiftKeepsTimeAndOffset(StartOf(page, propertyName).value, t);
  }

  /**
   * Every update moves the start of a page that had one to `today`, keeping
   * the time of day and offset that page had.
   */
  lemma SyncUpdatesLandOnToday(pages: seq<Page>, propertyName: string, today: Date, k: nat)
    requires ValidDate(today)
    requires k < |Sync(pages, propertyName, FormatDate(today)).updates|
    ensures exists j :: (0 <= j < |pages|
      && PageStep(pages[j], propertyName, FormatDate(today)) == Update(Sync(pages, propertyName, FormatDate(today)).updates[k])
      && Truthy(StartOf(pages[j], propertyName))
      && var dt := Parse(ReplaceAll(StartOf(pages[j], propertyName).value, "Z", "+00:00")).value;
         Parse(Sync(pages, propertyName, FormatDate(today)).updates[k].properties[propertyName]["start"])
           == Some(DateTime(today, dt.time, dt.offset)))
  {
    var t := FormatDate(today);
    SyncUpdatesFromPages(pages, propertyName, t, k);
    var j :| 0 <= j < |pages| && PageStep(pages[j], propertyName, t) == Update(Sync(pages, propertyName, t).updates[k]);
    PageStepLandsOnToday(pages[j], propertyName, today);
  }

  /**
   * The loop of the script's main block: for each page in order, skip it when
   * it has no start, otherwise shift its start (and its end, when it has one)
   * to `today` and issue the update. An exception ends the run, after the
   * updates already issued.
   */
  method UpdatePagesToToday(pages: seq<Page>, propertyName: string, today: string) returns (run: SyncRun)
    ensures run == Sync(pages, propertyName, today)
    ensures |run.updates| <= CountWithStart(pages, propertyName)
  {
    var updates: seq<PageUpdate> := [];
    var i := 0;
    while i < |pages|
      invariant 0 <= i <= |pages|
      invariant Sync(pages[..i], propertyName, today) == SyncRun(updates, None)
    {
      var step := UpdatePage(pages[i], propertyName, today);
      SyncExtend(pages, propertyName, today, i, step);
      match step {
        case Skip =>
        case Update(u) =>
          updates := updates + [u];
        case Abort(f) =>
          run := SyncRun(updates, Some(f));
          StopAt(pages, propertyName, today, i + 1, run);
          return;
      }
      i := i + 1;
    }
    assert pages[..i] == pages;
    run := SyncRun(updates, None);
    SyncUpdatesCounted(pages, propertyName, today);
  }

  /**
   * The body of the loop for one page: skip it when it has no start, raise
   * on a `null` date or a value that does not shift, otherwise shift the
   * start (and the end, when it has one) to `today` and build the update.
   */
  method UpdatePage(page: Page, propertyName: string, today: string) returns (step: Step)
    ensures step == PageStep(page, propertyName, today)
  {
    var slot := SlotOf(page, propertyName);
    if slot.NullDate? {
      return Abort(NullDateObject(page.id));
    }
    var start, end := StartOf(page, propertyName), if slot.DateValue? then slot.end else None;
    if !(start.Some? && start.value != "") {
      return Skip;
    }
    var newStart := ShiftDatePreservingTime(start.value, today);
    if newStart.Err? {
      return Abort(ShiftFailed(page.id, newStart.error));
    }
    var newEnd: Option<string> := None;
    if end.Some? && end.value != "" {
      var shifted := ShiftDatePreservingTime(end.value, today);
      if shifted.Err? {
        return Abort(ShiftFailed(page.id, shifted.error));
      }
      newEnd := Some(shifted.value);
    }
    var u := UpdatePageDate(page.id, propertyName, newStart.value, newEnd);
    return Update(u);
  }

  /** One more page of the loop: the run so far, extended by that page's step. */
  lemma SyncExtend(pages: seq<Page>, propertyName: string, today: string, i: nat, step: Step)
    requires i < |pages| && step == PageStep(pages[i], propertyName, today)
    requires Sync(pages[..i], propertyName, today).failure.None?
    ensures var r := Sync(pages[..i], propertyName, today);
            Sync(pages[..i + 1], propertyName, today)
              == match step
                 case Skip => r
                 case Update(u) => r.(updates := r.updates + [u])
                 case Abort(f) => r.(failure := Some(f))
  {
    assert pages[..i + 1][..i] == pages[..i];
    assert pages[..i + 1][i] == pages[i];
  }

  /** A run that failed on page `i - 1` is the whole run, within the bound on updates. */
  lemma StopAt(pages: seq<Page>, propertyName: string, today: string, i: nat, run: SyncRun)
    requires 0 < i <= |pages|
    requires run == Sync(pages[..i], propertyName, today) && run.failure.Some?
    ensures run == Sync(pages, propertyName, today)
    ensures |run.updates| <= CountWithStart(pages, propertyName)
  {
    SyncStopsAtFailure(pages, propertyName, today, i);
    SyncUpdatesCounted(pages, propertyName, today);
  }

  /**
   * The script's main block after the clock is read: the dates for "now",
   * the query for yesterday's window, and the loop over the pages that query
   * returned (an input here).
   */
  method Run(now: Date, propertyName: string, pages: seq<Page>)
    returns (query: Result<DateFilter, WindowError>, run: SyncRun)
    requires ValidDate(now) && now != Date(MinYear, 1, 1)
    ensures query == Ok(DateFilter(propertyName, FormatDate(PrevDay(now)), FormatDate(now)))
    ensures run == Sync(pages, propertyName, FormatDate(now))
  {
    YesterdayWindowEndsToday(now, propertyName);
    var dates := RunDatesFor(now).value;
    query := DayWindow(propertyName, dates.yesterday);
    run := UpdatePagesToToday(pages, propertyName, dates.today);
  }
}
