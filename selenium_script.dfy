/**
 * utils/seleniumScript.js: `runSeleniumScript` reads the departure table of the line's web page
 * for one stop and keeps the departures of the current hour from the current minute on and
 * those of the next hour.
 *
 * The browser session is not modelled: the site is a function from what the script selects on
 * the page (direction option, day option, stop, the two hour labels) to what it finds there,
 * namely the table rows of the stop with the cells already looked up for each hour label.
 */
module SeleniumScript {
  import opened Strings
  import SeleniumTexts

  /** The day option: Saturday, Sunday, or a working day, as `Date.getDay` numbers the days. */
  function DayLabel(day: int): (r: string)
    ensures r == "zaterdag" <==> day == 6
    ensures r == "zon- en feestdagen" <==> day == 0
    ensures r == "maandag t/m vrijdag" <==> day != 0 && day != 6
  {
    var isWeekend := day == SeleniumTexts.Sunday || day == SeleniumTexts.Saturday;
    if isWeekend then
      (if day == SeleniumTexts.Saturday then "zaterdag" else "zon- en feestdagen")
    else
      "maandag t/m vrijdag"
  }

  /** The direction option: towards Zwolle is the return trip, anything else the outward one. */
  function DirectionOption(direction: string): (r: string)
    ensures r == "Return" <==> direction == "zwolle"
    ensures r == "Away" <==> direction != "zwolle"
  {
    if direction == SeleniumTexts.Zwolle then "Return" else "Away"
  }

  /**
   * `searchHour`: the hour in decimal, with a leading zero below ten. The label is digits only,
   * reads back as the hour, and is two characters for any hour below 100.
   */
  function HourLabel(hours: nat): (r: string)
    ensures forall k :: 0 <= k < |r| ==> IsDigit(r[k])
    ensures DigitsValue(r) == hours
    ensures hours < 100 ==> |r| == 2
  {
    DigitsValueOfNatToString(hours);
    if hours < 10 then
      DigitsValueLeadingZero(NatToString(hours));
      "0" + NatToString(hours)
    else
      assert hours < 100 ==> NatToString(hours) == NatToString(hours / 10) + [DigitChar(hours % 10)];
      NatToString(hours)
  }

  /** `searchHourNext`: the label of `hours + 1`, with no wrap-around after 23. */
  function NextHourLabel(hours: nat): (r: string)
    ensures forall k :: 0 <= k < |r| ==> IsDigit(r[k])
    ensures DigitsValue(r) == hours + 1
  {
    HourLabel(hours + 1)
  }

  lemma {:induction false} DigitsValueLeadingZero(s: string)
    requires forall k :: 0 <= k < |s| ==> IsDigit(s[k])
    ensures DigitsValue("0" + s) == DigitsValue(s)
    decreases |s|
  {
    if s != [] {
      var t := "0" + s;
      assert t[..|t| - 1] == "0" + s[..|s| - 1];
      DigitsValueLeadingZero(s[..|s| - 1]);
    } else {
      assert "0" + s == "0";
    }
  }

  /** The last hour of the day is followed by the label 24. */
  lemma NextHourAfter23()
    ensures NextHourLabel(23) == "24"
  {
    assert NatToString(24) == NatToString(2) + [DigitChar(4)];
  }

  // Reading a departure cell.

  /** The text starts with two digits, a colon and two digits (`/^\d{2}:\d{2}/`). */
  predicate StartsWithTime(s: string) {
    |s| >= 5 && IsDigit(s[0]) && IsDigit(s[1]) && s[2] == ':' && IsDigit(s[3]) && IsDigit(s[4])
  }

  /** A cell is a departure when its text is non-empty and its trimmed text starts with a time. */
  predicate IsTimeCell(text: string) {
    text != "" && StartsWithTime(Trim(text))
  }

  /**
   * `parseInt` of the piece after the first colon: the number its leading digits spell (the piece
   * of a departure cell starts with a digit, so there is no white space, sign or `NaN` to handle).
   */
  function CellMinutes(text: string): nat {
    var colon := IndexOf(text, ':');
    DigitsValue(DigitPrefix(text[colon + 1..]))
  }

  /** A departure cell of the current hour is kept when it departs at `minutes` or later. */
  predicate DepartsFrom(text: string, minutes: nat) {
    IsTimeCell(text) && CellMinutes(text) >= minutes
  }

  /**
   * The cells kept, in their order, with their texts as read. The next hour uses minute 0, which
   * every departure cell passes, since its filter has no minute test.
   */
  function Departing(cells: seq<string>, minutes: nat): (r: seq<string>)
    ensures forall x :: x in r <==> x in cells && DepartsFrom(x, minutes)
    ensures |r| <= |cells|
  {
    if cells == [] then []
    else (if DepartsFrom(cells[0], minutes) then [cells[0]] else []) + Departing(cells[1..], minutes)
  }

  /** Keeping cells works cell by cell, in order. */
  lemma {:induction false} DepartingAppend(xs: seq<string>, ys: seq<string>, minutes: nat)
    ensures Departing(xs + ys, minutes) == Departing(xs, minutes) + Departing(ys, minutes)
  {
    if xs != [] {
      assert (xs + ys)[1..] == xs[1..] + ys;
      DepartingAppend(xs[1..], ys, minutes);
    } else {
      assert xs + ys == ys;
    }
  }

  lemma DepartingOne(x: string, minutes: nat)
    ensures Departing([x], minutes) == if DepartsFrom(x, minutes) then [x] else []
  {
    assert [x][1..] == [];
  }

  /** With minute 0 the filter keeps exactly the departure cells: the next-hour filter. */
  lemma DepartingFromZero(x: string)
    ensures DepartsFrom(x, 0) <==> IsTimeCell(x)
  {
  }

  /**
   * The time of a departure cell sits at offset `off`, after white space only; what follows it is
   * the rest of the trimmed text, or white space.
   */
  lemma TimeOffset(text: string) returns (off: nat)
    requires IsTimeCell(text)
    ensures off + 5 <= |text| && text[off..off + 5] == Trim(text)[..5]
    ensures forall k :: 0 <= k < off ==> IsJsSpace(text[k])
    ensures off + 5 < |text| ==>
      (if |Trim(text)| > 5 then text[off + 5] == Trim(text)[5] else IsJsSpace(text[off + 5]))
  {
    var ts := TrimStart(text);
    off := |text| - |ts|;
    var t := Trim(text);
    assert ts == text[off..] && t == ts[..|t|];
    if off + 5 < |text| && |t| == 5 {
      assert IsJsSpace(ts[5]);
    }
  }

  /** The first colon of a text that has only non-colons before a time at `off` is the time's. */
  lemma ColonAt(text: string, off: nat)
    requires off + 3 <= |text| && text[off + 2] == ':' && text[off] != ':' && text[off + 1] != ':'
    requires forall k :: 0 <= k < off ==> text[k] != ':'
    ensures IndexOf(text, ':') == off + 2
  {
    var pre := text[..off + 2];
    assert forall k :: 0 <= k < |pre| ==> pre[k] == text[k];
    IndexOfFirst(text, ':', off + 2);
  }

  /** Two digits followed by a non-digit, or by nothing, read as a two-digit number. */
  lemma TwoDigits(rest: string)
    requires |rest| >= 2 && IsDigit(rest[0]) && IsDigit(rest[1])
    requires |rest| == 2 || !IsDigit(rest[2])
    ensures DigitsValue(DigitPrefix(rest)) == 10 * DigitValue(rest[0]) + DigitValue(rest[1])
  {
    assert DigitPrefix(rest[2..]) == [];
    assert DigitPrefix(rest[1..]) == [rest[1]] + DigitPrefix(rest[2..]);
    var p := DigitPrefix(rest);
    assert p == [rest[0], rest[1]];
    assert p[..1] == [rest[0]];
  }

  /** A cell whose time is followed by a non-digit, or by nothing, departs at the two minute digits of its time. */
  lemma CellMinutesOfTime(text: string)
    requires IsTimeCell(text)
    requires |Trim(text)| == 5 || !IsDigit(Trim(text)[5])
    ensures CellMinutes(text) == 10 * DigitValue(Trim(text)[3]) + DigitValue(Trim(text)[4])
  {
    var off := TimeOffset(text);
    var t := Trim(text);
    assert text[off + 3] == text[off..off + 5][3] == t[3];
    assert text[off + 4] == text[off..off + 5][4] == t[4];
    assert StartsWithTime(text[off..]) by {
      assert text[off..][..5] == t[..5];
    }
    MinutesAt(text, off);
  }

  /** A time at `off` after white space only, not followed by a digit, departs at its two minute digits. */
  lemma MinutesAt(text: string, off: nat)
    requires off + 5 <= |text| && StartsWithTime(text[off..])
    requires forall k :: 0 <= k < off ==> IsJsSpace(text[k])
    requires off + 5 == |text| || !IsDigit(text[off + 5])
    ensures CellMinutes(text) == 10 * DigitValue(text[off + 3]) + DigitValue(text[off + 4])
  {
    assert text[off] == text[off..][0] && text[off + 1] == text[off..][1] && text[off + 2] == text[off..][2];
    ColonAt(text, off);
    var rest := text[off + 3..];
    assert rest[0] == text[off..][3] && rest[1] == text[off..][4];
    assert |rest| > 2 ==> rest[2] == text[off + 5];
    TwoDigits(rest);
  }

  /** A five-character time with nothing around it is a departure cell at its minute digits. */
  lemma PlainTime(text: string)
    requires |text| == 5 && StartsWithTime(text)
    ensures IsTimeCell(text) && CellMinutes(text) == 10 * DigitValue(text[3]) + DigitValue(text[4])
  {
    assert !IsJsSpace(text[0]) && !IsJsSpace(text[4]);
    TrimOfTrimmed(text);
    ColonAt(text, 0);
    TwoDigits(text[3..]);
  }

  // The page and the script.

  /** One settled `findElements` of a row: the cells found, or a rejection that counts as none. */
  datatype Lookup = Fulfilled(cells: seq<string>) | Rejected

  function Settled(l: Lookup): seq<string> {
    match l
    case Fulfilled(cells) => cells
    case Rejected => []
  }

  /** A table row of the stop: its cells of the current hour and of the next hour. */
  datatype Row = Row(exactHour: Lookup, nextHour: Lookup)

  /**
   * What the session finds: `Broken` when it throws before the rows are read (navigation, the
   * option menus, the row lookup); otherwise the rows of the stop, and whether reading the
   * texts of the current-hour cells and then of the next-hour cells succeeds.
   */
  datatype Page = Broken | Table(rows: seq<Row>, currentTextsRead: bool, nextTextsRead: bool)

  /** What the script selects on the page. */
  datatype Query = Query(directionOption: string, dayOption: string, busStop: string, hour: string, nextHour: string)

  datatype Time = Time(hours: nat, minutes: nat, day: int)

  datatype Departures = Departures(busesForCurrentHour: seq<string>, busesForNextHour: seq<string>)

  function QueryFor(time: Time, direction: string, busStop: string): Query {
    Query(DirectionOption(direction), DayLabel(time.day), busStop, HourLabel(time.hours), NextHourLabel(time.hours))
  }

  /** The lookup of a row for the current hour, or for the next hour. */
  function RowLookup(row: Row, next: bool): Lookup {
    if next then row.nextHour else row.exactHour
  }

  /** The cells the rows give for the current hour, or for the next hour, row after row. */
  function HourCells(rows: seq<Row>, next: bool): seq<string> {
    if rows == [] then [] else HourCells(rows[..|rows| - 1], next) + Settled(RowLookup(rows[|rows| - 1], next))
  }

  /** What `runSeleniumScript` returns for a page. */
  function ScriptResult(time: Time, page: Page): (r: Departures)
    ensures r.busesForCurrentHour != [] ==> page.Table? && page.rows != [] && page.currentTextsRead
    ensures r.busesForNextHour != [] ==> page.Table? && page.rows != [] && page.currentTextsRead && page.nextTextsRead
  {
    match page
    case Broken => Departures([], [])
    case Table(rows, currentTextsRead, nextTextsRead) =>
      if rows == [] || !currentTextsRead then Departures([], [])
      else
        Departures(
          Departing(HourCells(rows, false), time.minutes),
          if nextTextsRead then Departing(HourCells(rows, true), 0) else [])
  }

  /**
   * `runSeleniumScript`: select on the page, collect the cells of every row of the stop, then keep
   * the departures; a failure leaves the lists as they were assigned so far.
   */
  method RunSeleniumScript(time: Time, direction: string, busStop: string, site: Query -> Page)
    returns (r: Departures)
    ensures r == ScriptResult(time, site(QueryFor(time, direction, busStop)))
  {
    var busesForCurrentHour: seq<string> := [];
    var busesForNextHour: seq<string> := [];
    var page := site(QueryFor(time, direction, busStop));
    if page.Broken? || page.rows == [] {
      return Departures(busesForCurrentHour, busesForNextHour);
    }
    var rows := page.rows;
    var timeCellsExactHour: seq<string> := [];
    var timeCellsNextHour: seq<string> := [];
    for i := 0 to |rows|
      invariant timeCellsExactHour == HourCells(rows[..i], false)
      invariant timeCellsNextHour == HourCells(rows[..i], true)
    {
      assert rows[..i + 1][..i] == rows[..i];
      timeCellsExactHour := timeCellsExactHour + Settled(rows[i].exactHour);
      timeCellsNextHour := timeCellsNextHour + Settled(rows[i].nextHour);
    }
    assert rows[..|rows|] == rows;
    if page.currentTextsRead {
      busesForCurrentHour := Departing(timeCellsExactHour, time.minutes);
      if page.nextTextsRead {
        busesForNextHour := Departing(timeCellsNextHour, 0);
      }
    }
    return Departures(busesForCurrentHour, busesForNextHour);
  }

  /** Cells are gathered row after row: the rows of two tables give their cells in that order. */
  lemma {:induction false} HourCellsAppend(rows: seq<Row>, more: seq<Row>, next: bool)
    ensures HourCells(rows + more, next) == HourCells(rows, next) + HourCells(more, next)
    decreases |more|
  {
    if more == [] {
      assert rows + more == rows;
    } else {
      var last := |more| - 1;
      assert (rows + more)[..|rows + more| - 1] == rows + more[..last];
      HourCellsAppend(rows, more[..last], next);
    }
  }

  /** With no row for the stop, or a session that breaks early, there are no departures at all. */
  lemma NoRowsNoDepartures(time: Time, page: Page)
    requires page.Broken? || page.rows == []
    ensures ScriptResult(time, page) == Departures([], [])
  {
  }

  /**
   * The current-hour list holds exactly the departure cells of the current-hour lookups that leave
   * at `minutes` or later; the next-hour list exactly the departure cells of the next-hour lookups.
   */
  lemma ScriptResultContents(time: Time, page: Page, x: string)
    requires page.Table? && page.rows != [] && page.currentTextsRead
    ensures x in ScriptResult(time, page).busesForCurrentHour <==>
      x in HourCells(page.rows, false) && IsTimeCell(x) && CellMinutes(x) >= time.minutes
    ensures page.nextTextsRead ==>
      (x in ScriptResult(time, page).busesForNextHour <==> x in HourCells(page.rows, true) && IsTimeCell(x))
    ensures !page.nextTextsRead ==> ScriptResult(time, page).busesForNextHour == []
  {
  }
}
