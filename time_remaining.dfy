/** `getTimeRemaining` of App.js: the time left before a record expires, as
    the coarse label the statistics list shows. Instants are integer
    milliseconds; `now` is the clock reading the source takes itself. */
module TimeRemaining {
  import opened JsText
  import opened Records
  const MillisPerHour: int := 3600000
  const MillisPerDay: int := 86400000

  /** Whole minutes, hours and days of `diff`, each floored from the one
      before as the source does, then the label for the largest non-zero
      unit, or "Expired" when nothing is left. */
  function TimeRemaining(expiryDate: int, now: int): string {
    var diff := expiryDate - now;
    if diff <= 0 then "Expired"
    else
      var minutes := diff / MillisPerMinute;
      var hours := minutes / 60;
      var days := hours / 24;
      if days > 0 then NumberToString(days) + "d " + NumberToString(hours % 24) + "h"
      else if hours > 0 then NumberToString(hours) + "h " + NumberToString(minutes % 60) + "m"
      else NumberToString(minutes) + "m"
  }

  /** The label is "Expired" exactly when the expiry is not after `now`;
      every other label starts with a digit. */
  lemma ExpiredIffDue(expiryDate: int, now: int)
    ensures TimeRemaining(expiryDate, now) == "Expired" <==> expiryDate <= now
    ensures expiryDate > now ==> IsDigit(TimeRemaining(expiryDate, now)[0])
  {
    var diff := expiryDate - now;
    if diff > 0 {
      var minutes := diff / MillisPerMinute;
      var hours := minutes / 60;
      var days := hours / 24;
      var r := TimeRemaining(expiryDate, now);
      var lead := if days > 0 then NumberToString(days)
        else if hours > 0 then NumberToString(hours) else NumberToString(minutes);
      assert r[0] == lead[0];
      assert r[0] != 'E';
    }
  }

  /** One full day or more left: "<d>d <h>h" with `h` below 24, the whole
      days and hours left, rounded down. */
  lemma DaysLabel(expiryDate: int, now: int)
    requires expiryDate - now >= MillisPerDay
    ensures exists d: nat, h: nat ::
      && TimeRemaining(expiryDate, now) == NumberToString(d) + "d " + NumberToString(h) + "h"
      && d >= 1 && h < 24
      && d * MillisPerDay + h * MillisPerHour <= expiryDate - now < d * MillisPerDay + (h + 1) * MillisPerHour
  {
    var diff := expiryDate - now;
    var minutes := diff / MillisPerMinute;
    var hours := minutes / 60;
    var d, h := hours / 24, hours % 24;
    HoursBounds(diff);
    assert hours == d * 24 + h;
    assert d >= 1;
    assert d * MillisPerDay + h * MillisPerHour == hours * MillisPerHour;
    assert TimeRemaining(expiryDate, now) == NumberToString(d) + "d " + NumberToString(h) + "h";
  }

  /** One hour to a day left: "<h>h <m>m" with `m` below 60. */
  lemma HoursLabel(expiryDate: int, now: int)
    requires MillisPerHour <= expiryDate - now < MillisPerDay
    ensures exists h: nat, m: nat ::
      && TimeRemaining(expiryDate, now) == NumberToString(h) + "h " + NumberToString(m) + "m"
      && 1 <= h < 24 && m < 60
      && h * MillisPerHour + m * MillisPerMinute <= expiryDate - now < h * MillisPerHour + (m + 1) * MillisPerMinute
  {
    var diff := expiryDate - now;
    var minutes := diff / MillisPerMinute;
    var h, m := minutes / 60, minutes % 60;
    HoursBounds(diff);
    assert minutes == h * 60 + m;
    assert h >= 1 && h < 24;
    assert h * MillisPerHour + m * MillisPerMinute == minutes * MillisPerMinute;
    assert TimeRemaining(expiryDate, now) == NumberToString(h) + "h " + NumberToString(m) + "m";
  }

  /** Less than an hour left: "<m>m", the whole minutes left, so "0m" in the
      last minute. */
  lemma MinutesLabel(expiryDate: int, now: int)
    requires 0 < expiryDate - now < MillisPerHour
    ensures exists m: nat ::
      && TimeRemaining(expiryDate, now) == NumberToString(m) + "m"
      && m < 60
      && m * MillisPerMinute <= expiryDate - now < (m + 1) * MillisPerMinute
  {
    var diff := expiryDate - now;
    var m := diff / MillisPerMinute;
    HoursBounds(diff);
    assert m < 60;
    assert TimeRemaining(expiryDate, now) == NumberToString(m) + "m";
  }

  /** The floored minutes and hours of a positive `diff` and the span of
      milliseconds each covers. */
  lemma HoursBounds(diff: int)
    requires diff > 0
    ensures var minutes := diff / MillisPerMinute;
      var hours := minutes / 60;
      && minutes >= 0 && hours >= 0
      && minutes * MillisPerMinute <= diff < (minutes + 1) * MillisPerMinute
      && hours * 60 <= minutes < hours * 60 + 60
      && hours * MillisPerHour <= diff < (hours + 1) * MillisPerHour
      && (hours >= 24 <==> diff >= MillisPerDay)
      && (hours >= 1 <==> diff >= MillisPerHour)
  {
    var minutes := diff / MillisPerMinute;
    var hours := minutes / 60;
    assert minutes * MillisPerMinute <= diff < (minutes + 1) * MillisPerMinute;
    assert hours * 60 <= minutes < hours * 60 + 60;
    assert hours * MillisPerHour == hours * 60 * MillisPerMinute;
  }

  lemma Examples()
    ensures TimeRemaining(1000, 1000) == "Expired"
    ensures TimeRemaining(30 * MillisPerMinute, 0) == "30m"
  {
    assert NumberToString(30) == "30" by {
      assert NumberToString(3) == "3";
    }
  }
}
