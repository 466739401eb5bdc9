/** The event calendar's time and date helpers (app/components/EventCalendar.js):
    `formatTime` turns a stored 24-hour "HH:MM[:SS]" time into a 12-hour
    clock reading, and `isToday` compares an event date with today's date. */
module Events {
  import opened Seqs
  import opened Text

  /** `hour % 12 || 12`: the 12-hour clock hour. A NaN hour (`None`) is falsy
      after `% 12`, so it also shows as 12. */
  function DisplayHour(hour: Option<nat>): (h: nat)
    ensures 1 <= h <= 12
    ensures hour.None? ==> h == 12
    ensures hour.Some? ==> h % 12 == hour.value % 12
    ensures hour.Some? && hour.value < 24 ==> (h == 12 <==> hour.value == 0 || hour.value == 12)
  {
    match hour
    case None => 12
    case Some(v) => if v % 12 == 0 then 12 else v % 12
  }

  /** `hour >= 12 ? 'PM' : 'AM'`; the comparison is false for NaN. */
  function Suffix(hour: Option<nat>): (s: string)
    ensures s == "PM" <==> hour.Some? && hour.value >= 12
    ensures s == "PM" || s == "AM"
  {
    if hour.Some? && hour.value >= 12 then "PM" else "AM"
  }

  /** `formatTime(timeString)`: null for a missing or empty time; otherwise
      the hour piece before the first ':' read as a number, the second piece
      kept verbatim as the minutes (JavaScript renders a missing second piece
      as "undefined"), and the rest dropped. */
  function FormatTime(time: Option<string>): (r: Option<string>)
    ensures r.None? <==> time.None? || time.value == ""
  {
    if time.None? || time.value == "" then None
    else
      var parts := Split(time.value, ':');
      var hour := ParseDecimal(parts[0]);
      var minutes := if |parts| > 1 then parts[1] else "undefined";
      Some(NatToDecimal(DisplayHour(hour)) + ":" + minutes + " " + Suffix(hour))
  }

  /** A stored time "HH:MM" or "HH:MM:SS" with hour h shows as the 12-hour
      hour, the minutes exactly as stored and AM/PM by h; seconds are dropped. */
  lemma FormatTimeOfClockTime(hh: string, mm: string, rest: string)
    requires IsDecimal(hh)
    requires ':' !in mm
    requires rest == [] || rest[0] == ':'
    ensures FormatTime(Some(hh + ":" + mm + rest))
         == Some(NatToDecimal(DisplayHour(Some(DecimalValue(hh)))) + ":" + mm + " "
                 + (if DecimalValue(hh) >= 12 then "PM" else "AM"))
  {
    SplitClockTime(hh, mm, rest);
  }

  /** The first two pieces of "HH:MM[:SS]" are the hour and minute texts. */
  lemma SplitClockTime(hh: string, mm: string, rest: string)
    requires IsDecimal(hh)
    requires ':' !in mm
    requires rest == [] || rest[0] == ':'
    ensures var parts := Split(hh + ":" + mm + rest, ':');
            |parts| >= 2 && parts[0] == hh && parts[1] == mm
  {
    DigitsHaveNoColon(hh);
    var tail := mm + rest;
    assert hh + ":" + mm + rest == hh + [':'] + tail;
    SplitHead(hh, ':', tail);
    SplitFirstPiece(mm, rest, ':');
  }

  lemma DigitsHaveNoColon(s: string)
    requires forall i :: 0 <= i < |s| ==> IsDigit(s[i])
    ensures ':' !in s
  {
    forall k | 0 <= k < |s| ensures s[k] != ':' { assert IsDigit(s[k]); }
  }

  /** The displayed hour can be read back from the output: the text before
      its first ':' is the 12-hour hour in decimal. */
  lemma FormatTimeHourPiece(time: string)
    requires time != ""
    ensures var parts := Split(time, ':');
            var hour := ParseDecimal(parts[0]);
            FormatTime(Some(time)).Some? &&
            Split(FormatTime(Some(time)).value, ':')[0] == NatToDecimal(DisplayHour(hour)) &&
            ParseDecimal(Split(FormatTime(Some(time)).value, ':')[0]) == Some(DisplayHour(hour))
  {
    var parts := Split(time, ':');
    var hour := ParseDecimal(parts[0]);
    var minutes := if |parts| > 1 then parts[1] else "undefined";
    var h := NatToDecimal(DisplayHour(hour));
    DigitsHaveNoColon(h);
    var out := h + ":" + minutes + " " + Suffix(hour);
    assert out == h + [':'] + (minutes + " " + Suffix(hour));
    SplitHead(h, ':', minutes + " " + Suffix(hour));
    ParseNatToDecimal(DisplayHour(hour));
  }

  /** `isToday(dateString)`: today's date is the part of the current ISO
      timestamp before its first 'T'; the clock reading is a parameter. The
      date matches exactly when it is a 'T'-free prefix of the timestamp that
      ends at a 'T' or at the end. */
  function IsToday(date: string, nowIso: string): (today: bool)
    ensures today <==> date <= nowIso && 'T' !in date && (|date| == |nowIso| || nowIso[|date|] == 'T')
  {
    SplitFirst(nowIso, 'T');
    TodayPrefix(date, nowIso);
    date == Split(nowIso, 'T')[0]
  }

  /** The text before the first 'T' is the one 'T'-free prefix that ends at a
      'T' or at the end. */
  lemma TodayPrefix(date: string, s: string)
    ensures date == s[..IndexOf(s, 'T')] <==>
            date <= s && 'T' !in date && (|date| == |s| || s[|date|] == 'T')
  {
    var i := IndexOf(s, 'T');
    if date <= s && 'T' !in date && (|date| == |s| || s[|date|] == 'T') {
      assert forall k :: 0 <= k < |date| ==> s[k] == date[k];
      assert !(i < |date|);
      assert !(|date| < i);
      assert date == s[..i];
    }
  }

  /** For an ISO timestamp "YYYY-MM-DDT...", an event is today exactly when
      its date string equals the "YYYY-MM-DD" part. */
  lemma IsTodayIffSameDay(date: string, day: string, clock: string)
    requires 'T' !in day
    ensures IsToday(date, day + "T" + clock) <==> date == day
  {
    assert day + "T" + clock == day + ['T'] + clock;
    SplitHead(day, 'T', clock);
  }
}
