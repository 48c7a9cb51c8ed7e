/**
 * The staleness test as the text comparison it is in src/reminders.ts: the
 * stored `updated_at` is SQLite `CURRENT_TIMESTAMP` text, "YYYY-MM-DD HH:MM:SS",
 * and the bound is an ISO 8601 string, "YYYY-MM-DDTHH:MM:SS.sssZ"; JavaScript
 * orders the two strings by character codes.
 */
module Timestamps {
  import opened Text

  /** A UTC instant as its two text parts: "YYYY-MM-DD" and "HH:MM:SS". */
  datatype Clock = Clock(day: string, time: string)

  /** What `CURRENT_TIMESTAMP` stores. */
  function SqliteText(c: Clock): string {
    c.day + " " + c.time
  }

  /** What `toISOString` returns (with the milliseconds). */
  function IsoText(c: Clock, millis: string): string {
    c.day + "T" + c.time + "." + millis + "Z"
  }

  /** The condition `updated_at < sixHoursAgo` as written. */
  predicate StaleAsWritten(updated: Clock, bound: Clock, millis: string) {
    TextLess(SqliteText(updated), IsoText(bound, millis))
  }

  /** A shared prefix does not change the order. */
  lemma {:induction false} TextLessSharedPrefix(p: string, x: string, y: string)
    requires TextLess(x, y)
    ensures TextLess(p + x, p + y)
  {
    if p != [] {
      assert (p + x)[1..] == p[1..] + x;
      assert (p + y)[1..] == p[1..] + y;
      TextLessSharedPrefix(p[1..], x, y);
      assert (p + x)[0] == (p + y)[0] == p[0];
      assert |p + x| > 0 && |p + y| > 0;
    } else {
      assert p + x == x && p + y == y;
    }
  }

  /**
   * On the bound's own day every stored row counts as stale, whatever its
   * time: the space after the date sorts before the "T".
   */
  lemma SameDayAlwaysStale(updated: Clock, bound: Clock, millis: string)
    requires updated.day == bound.day
    ensures StaleAsWritten(updated, bound, millis)
  {
    var x := " " + updated.time;
    var y := "T" + bound.time + "." + millis + "Z";
    assert TextLess(x, y) by {
      assert x[0] == ' ' && y[0] == 'T';
    }
    TextLessSharedPrefix(updated.day, x, y);
    assert SqliteText(updated) == updated.day + x;
    assert IsoText(bound, millis) == bound.day + y;
  }

  /**
   * At 20:00 the bound is 14:00; a row refreshed at 19:00, one hour before,
   * is re-queued although it is inside the six-hour window.
   */
  lemma RecentRowRequeued()
    ensures StaleAsWritten(Clock("2024-05-01", "19:00:00"), Clock("2024-05-01", "14:00:00"), "000")
    ensures TextLess("14:00:00", "19:00:00")
  {
    SameDayAlwaysStale(Clock("2024-05-01", "19:00:00"), Clock("2024-05-01", "14:00:00"), "000");
    assert "14:00:00"[1..] == "4:00:00" && "19:00:00"[1..] == "9:00:00";
  }
}
