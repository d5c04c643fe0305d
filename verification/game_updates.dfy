/**
  The weekly game update (server/game_updates.py). The game updates every
  Wednesday at 11:30; around that instant sightings cannot be trusted.
  Time is an integer number of seconds counted from a Monday 00:00 in naive
  local wall-clock time, so `t / Day % 7` is Python's `weekday()` and
  `t % Day` is the time of day. The clock is the parameter `now`.
*/
module GameUpdates {

  /** Seconds in a day and in a week. */
  const Day: int := 86400
  const Week: int := 7 * Day

  /** `UPDATE_DAY`: `calendar.WEDNESDAY`, with Monday as day 0. */
  const UpdateDay: int := 2

  /** `UPDATE_TIME`: 11:30, as seconds after midnight. */
  const UpdateTime: int := 11 * 3600 + 30 * 60

  /** `UPDATE_GRACE_PERIOD_SECONDS`: thirty minutes. */
  const GracePeriod: int := 30 * 60

  /** Offset of the update instant within its week. */
  const UpdatePhase: int := UpdateDay * Day + UpdateTime

  /** `datetime.weekday()`: Monday is 0, Sunday is 6. */
  function Weekday(t: int): (wd: int)
    ensures 0 <= wd < 7
  {
    (t / Day) % 7
  }

  /** `datetime.time()`, as seconds after midnight. */
  function TimeOfDay(t: int): (s: int)
    ensures 0 <= s < Day
  {
    t % Day
  }

  /** An instant at which the game updates: a Wednesday at 11:30. */
  predicate IsUpdateInstant(t: int) {
    Weekday(t) == UpdateDay && TimeOfDay(t) == UpdateTime
  }

  /** Division with remainder is determined by any quotient and in-range remainder. */
  lemma DivModUnique(x: int, d: int, q: int, r: int)
    requires d > 0 && 0 <= r < d
    requires x == q * d + r
    ensures x / d == q && x % d == r
  {
    var q', r' := x / d, x % d;
    assert x == q' * d + r';
    assert (q - q') * d == r' - r by {
      assert (q - q') * d == q * d - q' * d;
    }
    if q > q' {
      MulAtLeast(q - q', d);
    } else if q < q' {
      assert (q' - q) * d == r - r';
      MulAtLeast(q' - q, d);
    }
  }

  /** A positive multiple of `d` is at least `d`. */
  lemma {:induction false} MulAtLeast(k: int, d: int)
    requires k >= 1 && d > 0
    ensures k * d >= d
    decreases k
  {
    if k > 1 {
      MulAtLeast(k - 1, d);
      assert k * d == (k - 1) * d + d;
    }
  }

  /** Update instants are exactly the instants at `UpdatePhase` seconds into a week. */
  lemma UpdateInstantPhase(t: int)
    ensures IsUpdateInstant(t) <==> t % Week == UpdatePhase
  {
    var q, tod := t / Day, t % Day;
    var p, wd := q / 7, q % 7;
    assert q == p * 7 + wd;
    assert t == p * Week + (wd * Day + tod);
    DivModUnique(t, Week, p, wd * Day + tod);
  }

  /** Instants one week apart are both update instants or neither. */
  lemma UpdateInstantWeekly(t: int, k: int)
    ensures IsUpdateInstant(t) <==> IsUpdateInstant(t + k * Week)
  {
    UpdateInstantPhase(t);
    UpdateInstantPhase(t + k * Week);
    var p := t / Week;
    assert t == p * Week + t % Week;
    assert t + k * Week == (p + k) * Week + t % Week;
    DivModUnique(t + k * Week, Week, p + k, t % Week);
  }

  /** Stepping back `d` whole days steps the weekday back by `d`, modulo a week. */
  lemma WeekdayBack(now: int, d: int)
    ensures Weekday(now - d * Day) == (Weekday(now) - d) % 7
  {
    var q := now / Day;
    assert now == q * Day + now % Day;
    assert now - d * Day == (q - d) * Day + now % Day;
    DivModUnique(now - d * Day, Day, q - d, now % Day);
    var p := q / 7;
    assert q - d == p * 7 + (q % 7 - d);
    var e := (q % 7 - d) / 7;
    assert q % 7 - d == e * 7 + (q % 7 - d) % 7;
    assert q - d == (p + e) * 7 + (q % 7 - d) % 7;
    DivModUnique(q - d, 7, p + e, (q % 7 - d) % 7);
  }

  /**
    `days_since_update`: how many days back the last update's date lies. On
    Wednesday before 11:30 it is a full week; after the update it is zero.
  */
  function DaysSinceUpdate(now: int): (d: int)
    ensures 0 <= d <= 7
    ensures Weekday(now - d * Day) == UpdateDay
    ensures d == 0 ==> TimeOfDay(now) >= UpdateTime
    ensures d == 7 ==> TimeOfDay(now) < UpdateTime
  {
    var wd := Weekday(now);
    var postUpdate := wd > UpdateDay || (wd == UpdateDay && TimeOfDay(now) >= UpdateTime);
    var d := if postUpdate then wd - UpdateDay else 7 - (UpdateDay - wd);
    WeekdayBack(now, d);
    d
  }

  /**
    `last_update_dt`: the most recent update instant, found by stepping back
    `DaysSinceUpdate` days and taking 11:30 of that date.
  */
  function LastUpdate(now: int): (r: int)
    ensures IsUpdateInstant(r)
    ensures r <= now < r + Week
  {
    var d := DaysSinceUpdate(now);
    var date := now - d * Day;
    var r := (date / Day) * Day + UpdateTime;
    DivModUnique(r, Day, date / Day, UpdateTime);
    assert date == (date / Day) * Day + date % Day;
    assert now == (now / Day) * Day + now % Day;
    DivModUnique(date, Day, now / Day - d, now % Day);
    r
  }

  /** The last update is the only update instant in the week ending at `now`. */
  lemma LastUpdateUnique(now: int, w: int)
    requires IsUpdateInstant(w)
    requires w <= now < w + Week
    ensures w == LastUpdate(now)
  {
    var r := LastUpdate(now);
    UpdateInstantPhase(w);
    UpdateInstantPhase(r);
    var a, b := w / Week, r / Week;
    assert w == a * Week + UpdatePhase;
    assert r == b * Week + UpdatePhase;
  }

  /** `seconds_since_last_update`. */
  function SecondsSinceLastUpdate(now: int): (s: int)
    ensures 0 <= s < Week
    ensures IsUpdateInstant(now - s)
  {
    now - LastUpdate(now)
  }

  /** `seconds_until_next_update`: the time left until one week after the last update. */
  function SecondsUntilNextUpdate(now: int): (s: int)
    ensures 0 < s <= Week
    ensures IsUpdateInstant(now + s)
    ensures s + SecondsSinceLastUpdate(now) == Week
  {
    UpdateInstantWeekly(LastUpdate(now), 1);
    LastUpdate(now) + Week - now
  }

  /**
    `in_update_period`: within the grace period after the last update or
    before the next one; that is, within thirty minutes, on either side, of
    some update instant.
  */
  function InUpdatePeriod(now: int): (b: bool)
    ensures b <==> exists w :: IsUpdateInstant(w) && -GracePeriod <= now - w <= GracePeriod
  {
    GraceChecksNearUpdate(now);
    SecondsSinceLastUpdate(now) <= GracePeriod || SecondsUntilNextUpdate(now) <= GracePeriod
  }

  /**
    The two grace-period checks together hold exactly at the instants within
    thirty minutes, on either side, of some update instant.
  */
  lemma GraceChecksNearUpdate(now: int)
    ensures SecondsSinceLastUpdate(now) <= GracePeriod || SecondsUntilNextUpdate(now) <= GracePeriod
      <==> exists w :: IsUpdateInstant(w) && -GracePeriod <= now - w <= GracePeriod
  {
    var last := LastUpdate(now);
    if SecondsSinceLastUpdate(now) <= GracePeriod {
      assert IsUpdateInstant(last) && now - last <= GracePeriod;
    } else if SecondsUntilNextUpdate(now) <= GracePeriod {
      var next := now + SecondsUntilNextUpdate(now);
      assert IsUpdateInstant(next) && -GracePeriod <= now - next;
    }
    if exists w :: IsUpdateInstant(w) && -GracePeriod <= now - w <= GracePeriod {
      var w :| IsUpdateInstant(w) && -GracePeriod <= now - w <= GracePeriod;
      if w <= now {
        LastUpdateUnique(now, w);
      } else {
        UpdateInstantWeekly(w, -1);
        LastUpdateUnique(now, w - Week);
      }
    }
  }
}
