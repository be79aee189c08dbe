/**
 * utils/getSearchResults.js: the reply to a timetable request. Between one and five o'clock the
 * bot refuses; otherwise it asks the scraper for the departures of the current and the next hour
 * and writes them out.
 */
module GetSearchResults {
  import opened Strings
  import SeleniumScript

  /** The fixed refusal for the night hours (the three pieces of the source run together). */
  const TooLate: string :=
    "Now is too late for buses."
    + "The Bot looks for buses at current and next hour,"
    + "e.g. if it is 7:00 AM the Bot would provide results for buses at 7 AM and 8 AM."

  /** No buses run between 01:00 and 04:59. */
  predicate InBlackout(hours: nat) {
    1 <= hours < 5
  }

  /** The clock as the reply prints it: hours and minutes in decimal, without padding. */
  function Clock(hours: nat, minutes: nat): string {
    NatToString(hours) + ":" + NatToString(minutes)
  }

  /** The shape of a list line: a bold title, then the given text between brackets. */
  function Bracketed(title: string, inner: string): string {
    "*" + title + ":* [ " + inner + " ] \n"
  }

  /** One list line: the items, separated by bars, between the brackets. */
  function ListLine(title: string, items: seq<string>): string {
    Bracketed(title, Join(items, " | "))
  }

  function Header(busStop: string, hours: nat, minutes: nat): string {
    "Buses departing from *" + busStop + "* at " + Clock(hours, minutes) + " or later:\n\n"
  }

  function NoBuses(busStop: string, hours: nat, minutes: nat): string {
    "No buses departing from *" + busStop + "* at " + Clock(hours, minutes) + ".\n\n"
  }

  /**
   * The reply for the two lists the scraper returned: the "No buses" line exactly when both are
   * empty, and otherwise a reply that starts with the header.
   */
  function Compose(busStop: string, hours: nat, minutes: nat, d: SeleniumScript.Departures): (r: string)
    ensures r == NoBuses(busStop, hours, minutes) <==> d.busesForCurrentHour == [] && d.busesForNextHour == []
    ensures d.busesForCurrentHour != [] || d.busesForNextHour != [] ==> Header(busStop, hours, minutes) <= r
  {
    var soon := d.busesForCurrentHour;
    var later := d.busesForNextHour;
    if |soon| > 0 || |later| > 0 then
      Header(busStop, hours, minutes)
      + (if |soon| > 0 then ListLine("Departing soon", soon) else "")
      + (if |later| > 0 then ListLine("Departing later", later) else "")
    else
      NoBuses(busStop, hours, minutes)
  }

  /**
   * The whole answer, for the session the site gives for the query the scraper makes: the refusal
   * exactly in the night hours.
   */
  function SearchReply(busStop: string, time: SeleniumScript.Time, direction: string,
                       site: SeleniumScript.Query -> SeleniumScript.Page): (r: string)
    ensures r == TooLate <==> InBlackout(time.hours)
  {
    if InBlackout(time.hours) then TooLate
    else
      var page := site(SeleniumScript.QueryFor(time, direction, busStop));
      ComposeNoRefusal(busStop, time.hours, time.minutes, SeleniumScript.ScriptResult(time, page));
      Compose(busStop, time.hours, time.minutes, SeleniumScript.ScriptResult(time, page))
  }

  /** A composed reply starts with `No b` or with `B`, so it is never the refusal, which starts with `Now`. */
  lemma ComposeNoRefusal(busStop: string, hours: nat, minutes: nat, d: SeleniumScript.Departures)
    ensures Compose(busStop, hours, minutes, d) != TooLate
  {
    var r := Compose(busStop, hours, minutes, d);
    var head := "Now is too late for buses.";
    assert TooLate[2] == head[2] == 'w';
    if r == NoBuses(busStop, hours, minutes) {
      assert r[2] == ' ';
    } else {
      assert r[0] == Header(busStop, hours, minutes)[0] == 'B';
    }
  }

  /** `getSearchResults`, with the date already split into hours, minutes and weekday. */
  method GetSearchResults(busStop: string, time: SeleniumScript.Time, direction: string,
                          site: SeleniumScript.Query -> SeleniumScript.Page)
    returns (outputMessage: string)
    ensures outputMessage == SearchReply(busStop, time, direction, site)
  {
    outputMessage := "";
    if time.hours >= 1 && time.hours < 5 {
      outputMessage := TooLate;
      return;
    }
    var results := SeleniumScript.RunSeleniumScript(time, direction, busStop, site);
    outputMessage := Compose(busStop, time.hours, time.minutes, results);
  }

  /** In the night hours the answer is the refusal whatever the site holds: the scraper plays no part. */
  lemma BlackoutIgnoresSite(busStop: string, time: SeleniumScript.Time, direction: string,
                            site: SeleniumScript.Query -> SeleniumScript.Page,
                            other: SeleniumScript.Query -> SeleniumScript.Page)
    ensures InBlackout(time.hours) ==>
      SearchReply(busStop, time, direction, site) == TooLate == SearchReply(busStop, time, direction, other)
  {
  }

  /**
   * A reply with departures reads back: after the header comes the "Departing soon" line exactly
   * when there are departures this hour, then the "Departing later" line exactly when there are
   * departures next hour, and the text between the brackets of each line, split on ` | `, is that
   * hour's departures in order. (With no departures the reply is the "No buses" line, by the
   * contract of `Compose`.)
   */
  lemma ComposeReadsBack(busStop: string, hours: nat, minutes: nat, d: SeleniumScript.Departures)
    returns (soon: string, later: string)
    requires d.busesForCurrentHour != [] || d.busesForNextHour != []
    requires forall k :: 0 <= k < |d.busesForCurrentHour| ==> '|' !in d.busesForCurrentHour[k]
    requires forall k :: 0 <= k < |d.busesForNextHour| ==> '|' !in d.busesForNextHour[k]
    ensures Compose(busStop, hours, minutes, d)
      == Header(busStop, hours, minutes)
         + (if d.busesForCurrentHour == [] then "" else Bracketed("Departing soon", soon))
         + (if d.busesForNextHour == [] then "" else Bracketed("Departing later", later))
    ensures d.busesForCurrentHour != [] ==> SplitOn(soon, " | ") == d.busesForCurrentHour
    ensures d.busesForNextHour != [] ==> SplitOn(later, " | ") == d.busesForNextHour
  {
    soon := Join(d.busesForCurrentHour, " | ");
    later := Join(d.busesForNextHour, " | ");
    if d.busesForCurrentHour != [] {
      ListLineReadsBack(d.busesForCurrentHour);
    }
    if d.busesForNextHour != [] {
      ListLineReadsBack(d.busesForNextHour);
    }
  }

  /** The clock is printed without padding, and reading its two numbers back gives the time. */
  lemma ClockReadsBack(hours: nat, minutes: nat)
    ensures var c := Clock(hours, minutes); var h := NatToString(hours);
      c[..|h|] == h && c[|h|] == ':' && DigitsValue(h) == hours
      && DigitsValue(c[|h| + 1..]) == minutes
    ensures hours < 10 ==> |NatToString(hours)| == 1
  {
    DigitsValueOfNatToString(hours);
    DigitsValueOfNatToString(minutes);
    var h := NatToString(hours);
    var c := Clock(hours, minutes);
    assert c[|h| + 1..] == NatToString(minutes);
  }

  // Reading a list line back.

  /** The first position at or after `from` where `sep` occurs in `s`, or -1. */
  function FindFrom(s: string, sep: string, from: nat): (i: int)
    ensures i == -1 || (from <= i && OccursAt(sep, s, i))
    ensures i == -1 ==> forall j :: from <= j <= |s| - |sep| ==> !OccursAt(sep, s, j)
    ensures i != -1 ==> forall j :: from <= j < i ==> !OccursAt(sep, s, j)
    decreases |s| - from
  {
    if from + |sep| > |s| then -1
    else if s[from..from + |sep|] == sep then from
    else FindFrom(s, sep, from + 1)
  }

  /** `s.split(sep)` for a non-empty separator. */
  function SplitOn(s: string, sep: string): (r: seq<string>)
    requires |sep| > 0
    ensures |r| >= 1
    decreases |s|
  {
    var i := FindFrom(s, sep, 0);
    if i == -1 then [s] else [s[..i]] + SplitOn(s[i + |sep|..], sep)
  }

  /** An item that `sep` cannot start inside, even when `sep` follows it. */
  predicate Separable(x: string, sep: string) {
    forall j :: 0 <= j < |x| ==> !OccursAt(sep, x + sep, j)
  }

  lemma FirstSeparator(x: string, sep: string, rest: string)
    requires |sep| > 0 && Separable(x, sep)
    ensures FindFrom(x + sep + rest, sep, 0) == |x|
  {
    var s := x + sep + rest;
    assert OccursAt(sep, s, |x|) by {
      assert s[|x|..|x| + |sep|] == sep;
    }
    forall j | 0 <= j < |x| ensures !OccursAt(sep, s, j) {
      if OccursAt(sep, s, j) {
        assert s[j..j + |sep|] == (x + sep)[j..j + |sep|];
        assert OccursAt(sep, x + sep, j);
      }
    }
  }

  lemma NoSeparator(x: string, sep: string)
    requires |sep| > 0 && Separable(x, sep)
    ensures FindFrom(x, sep, 0) == -1
  {
    forall j | 0 <= j <= |x| - |sep| ensures !OccursAt(sep, x, j) {
      if OccursAt(sep, x, j) {
        assert x[j..j + |sep|] == (x + sep)[j..j + |sep|];
        assert OccursAt(sep, x + sep, j);
      }
    }
  }

  /** Splitting the joined items on the separator gives the items back, in order. */
  lemma {:induction false} SplitJoin(xs: seq<string>, sep: string)
    requires |sep| > 0 && |xs| > 0
    requires forall k :: 0 <= k < |xs| ==> Separable(xs[k], sep)
    ensures SplitOn(Join(xs, sep), sep) == xs
  {
    if |xs| == 1 {
      NoSeparator(xs[0], sep);
    } else {
      var rest := Join(xs[1..], sep);
      FirstSeparator(xs[0], sep, rest);
      var s := xs[0] + sep + rest;
      assert s[..|xs[0]|] == xs[0];
      assert s[|xs[0]| + |sep|..] == rest;
      SplitJoin(xs[1..], sep);
    }
  }

  /** An item without a bar cannot hold or start the ` | ` separator. */
  lemma BarFreeSeparable(x: string)
    requires '|' !in x
    ensures Separable(x, " | ")
  {
    var s := x + " | ";
    forall j | 0 <= j < |x| ensures !OccursAt(" | ", s, j) {
      assert s[j + 1] != '|' by {
        if j + 1 < |x| {
          assert s[j + 1] == x[j + 1];
        }
      }
      assert j + 3 <= |s| ==> s[j..j + 3][1] == s[j + 1];
    }
  }

  /** The departures of a list line, split on ` | `, are the departures listed, in order. */
  lemma ListLineReadsBack(items: seq<string>)
    requires |items| > 0 && forall k :: 0 <= k < |items| ==> '|' !in items[k]
    ensures SplitOn(Join(items, " | "), " | ") == items
  {
    forall k | 0 <= k < |items| ensures Separable(items[k], " | ") {
      BarFreeSeparable(items[k]);
    }
    SplitJoin(items, " | ");
  }
}
