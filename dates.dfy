/**
 The date arithmetic the appointment controller borrows from date-fns, on
 timestamps counted in milliseconds. Time zones are not modelled: every hour
 boundary is a multiple of one hour since the epoch.
 */
module Dates {

  const MS_PER_HOUR: int := 3600000

  /** Is `t` exactly at the start of an hour? */
  predicate OnTheHour(t: int) {
    t % MS_PER_HOUR == 0
  }

  /** date-fns `startOfHour`: the latest start of an hour not after `t`. */
  function StartOfHour(t: int): (r: int)
    ensures OnTheHour(r)
    ensures r <= t < r + MS_PER_HOUR
  {
    t - t % MS_PER_HOUR
  }

  /** date-fns `subHours`: the same minute, `hours` whole hours earlier. */
  function SubHours(t: int, hours: nat): (r: int)
    ensures r <= t && t - r == hours * MS_PER_HOUR
    ensures StartOfHour(r) == StartOfHour(t) - hours * MS_PER_HOUR
  {
    var r := t - hours * MS_PER_HOUR;
    StartOfHourIsUnique(r, StartOfHour(t) - hours * MS_PER_HOUR);
    r
  }

  /** The start of an hour is the only hour boundary in the hour that follows it. */
  lemma StartOfHourIsUnique(t: int, h: int)
    requires OnTheHour(h) && h <= t < h + MS_PER_HOUR
    ensures StartOfHour(t) == h
  {
    var r := StartOfHour(t);
    var d := r - h;
    assert -MS_PER_HOUR < d < MS_PER_HOUR;
    assert d % MS_PER_HOUR == 0 by {
      assert r == (r / MS_PER_HOUR) * MS_PER_HOUR;
      assert h == (h / MS_PER_HOUR) * MS_PER_HOUR;
      assert d == (r / MS_PER_HOUR - h / MS_PER_HOUR) * MS_PER_HOUR;
    }
  }

  /** Truncating to the hour is idempotent, and fixes exactly the hour boundaries. */
  lemma StartOfHourFixesHourBoundaries(t: int)
    ensures StartOfHour(StartOfHour(t)) == StartOfHour(t)
    ensures StartOfHour(t) == t <==> OnTheHour(t)
  {
    StartOfHourIsUnique(StartOfHour(t), StartOfHour(t));
  }

  /** Two instants have the same start of hour exactly when one lies in the other's hour. */
  lemma SameHour(a: int, b: int)
    ensures StartOfHour(a) == StartOfHour(b) <==> StartOfHour(a) <= b < StartOfHour(a) + MS_PER_HOUR
  {
    if StartOfHour(a) <= b < StartOfHour(a) + MS_PER_HOUR {
      StartOfHourIsUnique(b, StartOfHour(a));
    }
  }
}
