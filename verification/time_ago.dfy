/** "How long ago" labels: the server's template filter (app.py,
    time_ago_filter) works on seconds, the browser's formatCommentTime
    (static/calendar.js and static/event_forum.js, identical) on milliseconds.
    The current time is a parameter. */
module TimeAgo {
  import opened Common

  datatype Unit = Minute | Hour | Day
  datatype Ago = JustNow | Elapsed(count: nat, unit: Unit)

  function UnitSeconds(u: Unit): nat {
    match u
    case Minute => 60
    case Hour => 3600
    case Day => 86400
  }

  /** The label's meaning: the timestamp lies `count` whole units back
      (not `count + 1`), and the unit is the largest of minute, hour and day
      that fits at least once, with days never rolled into anything larger. */
  ghost predicate Describes(a: Ago, seconds: int) {
    match a
    case JustNow => seconds < 60
    case Elapsed(n, u) =>
      n >= 1 && n * UnitSeconds(u) <= seconds < (n + 1) * UnitSeconds(u)
      && (u == Minute ==> n < 60) && (u == Hour ==> n < 24)
  }

  /** time_ago_filter(timestamp) at time `now` (both in whole seconds). A
      missing timestamp and a timestamp in the future both read 'just now'. */
  function TimeAgoFilter(timestamp: Option<int>, now: int): (a: Ago)
    ensures timestamp.None? ==> a == JustNow
    ensures timestamp.Some? ==> Describes(a, now - timestamp.value)
  {
    match timestamp
    case None => JustNow
    case Some(t) =>
      var seconds := now - t;
      // int(seconds / 60) truncates; seconds is positive here, so it floors.
      if seconds < 60 then JustNow
      else if seconds < 3600 then Elapsed(seconds / 60, Minute)
      else if seconds < 86400 then Elapsed(seconds / 3600, Hour)
      else Elapsed(seconds / 86400, Day)
  }

  /** formatCommentTime(timestamp) at time `nowMs`, in milliseconds.
      Math.floor on a positive divisor agrees with Dafny's division. The label
      describes the age in whole seconds, the milliseconds floored away. */
  function CommentTime(timestampMs: Option<int>, nowMs: int): (a: Ago)
    ensures timestampMs.None? ==> a == JustNow
    ensures timestampMs.Some? ==> Describes(a, (nowMs - timestampMs.value) / 1000)
  {
    match timestampMs
    case None => JustNow
    case Some(t) =>
      var diffMs := nowMs - t;
      var diffMins := diffMs / 60000;
      var diffHours := diffMs / 3600000;
      var diffDays := diffMs / 86400000;
      if diffMins < 1 then JustNow
      else if diffMins < 60 then Elapsed(diffMins, Minute)
      else if diffHours < 24 then Elapsed(diffHours, Hour)
      else Elapsed(diffDays, Day)
  }

  /** The browser and the server label a whole-second age the same way. */
  lemma BrowserAgreesWithServer(timestamp: int, now: int)
    ensures CommentTime(Some(1000 * timestamp), 1000 * now) == TimeAgoFilter(Some(timestamp), now)
  {
    var d := now - timestamp;
    assert 1000 * now - 1000 * timestamp == 1000 * d;
    assert (1000 * d) / 60000 == d / 60;
    assert (1000 * d) / 3600000 == d / 3600;
    assert (1000 * d) / 86400000 == d / 86400;
  }

  function UnitName(u: Unit): string {
    match u
    case Minute => "minute"
    case Hour => "hour"
    case Day => "day"
  }

  /** The label text: 'just now', or '<n> <unit> ago' with the unit in the
      plural unless n is 1. */
  function AgoText(a: Ago): string {
    match a
    case JustNow => "just now"
    case Elapsed(n, u) => NatToString(n) + " " + UnitName(u) + (if n != 1 then "s" else "") + " ago"
  }

  /** The unit is written in the plural exactly when the count is not 1, and
      the text starts with the count itself. */
  lemma AgoTextPlural(a: Ago)
    requires a.Elapsed?
    ensures var r := AgoText(a);
            |r| >= 5 && (r[|r| - 5..] == "s ago" <==> a.count != 1)
            && r[..|NatToString(a.count)|] == NatToString(a.count)
  {
    var r := AgoText(a);
    var n := NatToString(a.count);
    var w := UnitName(a.unit);
    if a.count != 1 {
      assert r == n + " " + w + "s" + " ago";
      assert r[|r| - 5..] == "s ago";
    } else {
      assert r == n + " " + w + "" + " ago";
      assert r[|r| - 5] == w[|w| - 1];
    }
  }
}
