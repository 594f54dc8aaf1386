/**
 * The clock of `framework/time_manager.py`: a table of the 24 hours of a day
 * by day part, built from the hours of sunrise and sunset, and an hourly step
 * that rebuilds the table when the date changes.
 *
 * Sunrise and sunset come from an astronomical library for the configured
 * city; here they are parameters.
 */
module Time {
  import opened Common
  import opened Enums

  /** An hour of the day, as `datetime.hour`. */
  type Hour = h: int | 0 <= h < 24

  /** Hours in a day. */
  const HoursPerDay: int := 24

  /**
   * `get_times_of_day`: night everywhere, day from the sunrise hour up to but
   * excluding the sunset hour, dawn in the hour before sunrise (the last hour of
   * the day when sunrise is at 0), dusk in the sunset hour; later writes win.
   */
  function TimesOfDay(sunrise: Hour, sunset: Hour): (t: seq<DayPart>)
    ensures |t| == HoursPerDay
    ensures t[sunset] == Dusk
    ensures sunset != (sunrise - 1) % HoursPerDay ==> t[(sunrise - 1) % HoursPerDay] == Dawn
    ensures forall h :: 0 <= h < HoursPerDay && h != sunset && h != (sunrise - 1) % HoursPerDay ==>
              (t[h] == Day <==> sunrise <= h < sunset) &&
              (t[h] == Night <==> !(sunrise <= h < sunset))
  {
    var night := seq(HoursPerDay, _ => Night);
    var day := seq(HoursPerDay, h requires 0 <= h < HoursPerDay => if sunrise <= h < sunset then Day else night[h]);
    var dawn := day[(sunrise - 1) % HoursPerDay := Dawn];
    dawn[sunset := Dusk]
  }

  /** A day part table is daylight exactly between its dawn and dusk hours when sunrise precedes sunset. */
  lemma {:induction false} DaylightSpan(sunrise: Hour, sunset: Hour)
    requires 0 < sunrise < sunset
    ensures var t := TimesOfDay(sunrise, sunset);
            && t[sunrise - 1] == Dawn && t[sunset] == Dusk
            && (forall h :: sunrise <= h < sunset ==> t[h] == Day)
            && (forall h :: 0 <= h < sunrise - 1 || sunset < h < HoursPerDay ==> t[h] == Night)
  {
    var t := TimesOfDay(sunrise, sunset);
    assert (sunrise - 1) % HoursPerDay == sunrise - 1;
  }

  /** `DayCycle.__getitem__`: NumPy indexing, which counts negative indices from the end. */
  function GetItem(t: seq<DayPart>, item: int): (r: Result<DayPart>)
    ensures -|t| <= item < |t| <==> r.Ok?
    ensures 0 <= item < |t| ==> r == Ok(t[item])
    ensures -|t| <= item < 0 ==> r == Ok(t[|t| + item])
    ensures r.Err? ==> r.error == IndexOutOfRange
  {
    if 0 <= item < |t| then Ok(t[item])
    else if -|t| <= item < 0 then Ok(t[|t| + item])
    else Err(IndexOutOfRange)
  }

  /** A moment on the hour: the day counted from the start date, and the hour. */
  datatype Moment = Moment(day: int, hour: Hour)

  /** The moment one hour later. */
  function NextHour(m: Moment): (r: Moment)
    ensures r.day * HoursPerDay + r.hour == m.day * HoursPerDay + m.hour + 1
  {
    if m.hour == HoursPerDay - 1 then Moment(m.day + 1, 0) else Moment(m.day, m.hour + 1)
  }

  /** `DayCycle(city, date)`: the table for the day of `day`. */
  datatype DayCycle = DayCycle(day: int, sunrise: Hour, sunset: Hour, times: seq<DayPart>)

  function NewDayCycle(day: int, sunrise: Hour, sunset: Hour): (c: DayCycle)
    ensures c.day == day && c.times == TimesOfDay(sunrise, sunset)
  {
    DayCycle(day, sunrise, sunset, TimesOfDay(sunrise, sunset))
  }

  datatype TimeManager = TimeManager(now: Moment, cycle: DayCycle, timeStep: TimeStep)

  /** The table in use belongs to the current day. */
  predicate Current(tm: TimeManager) {
    tm.cycle.day == tm.now.day && |tm.cycle.times| == HoursPerDay
  }

  /** `TimeManager(time_step)`: midnight of the start date, with that day's table. */
  function NewTimeManager(timeStep: TimeStep, sunrise: Hour, sunset: Hour): (tm: TimeManager)
    ensures tm.now == Moment(0, 0) && tm.timeStep == timeStep && Current(tm)
  {
    TimeManager(Moment(0, 0), NewDayCycle(0, sunrise, sunset), timeStep)
  }

  /**
   * `perform_time_step`: only the hourly step does anything. It advances the
   * clock by an hour, rebuilds the table (with the sun times of the new day)
   * when the day changed, and returns the day part of the new hour. Every
   * other time step returns nothing and changes nothing.
   */
  function PerformTimeStep(tm: TimeManager, sunrise: Hour, sunset: Hour): (r: (TimeManager, Option<DayPart>))
    requires Current(tm)
    ensures tm.timeStep != Hourly ==> r == (tm, None)
    ensures tm.timeStep == Hourly ==>
              && r.0.now == NextHour(tm.now)
              && r.0.timeStep == tm.timeStep
              && Current(r.0)
              && (r.0.now.day != tm.now.day <==> r.0.now.hour == 0)
              && (r.0.now.day == tm.now.day ==> r.0.cycle == tm.cycle)
              && (r.0.now.day != tm.now.day ==> r.0.cycle == NewDayCycle(r.0.now.day, sunrise, sunset))
              && r.1 == Some(r.0.cycle.times[r.0.now.hour])
  {
    if tm.timeStep == Hourly then
      var now := NextHour(tm.now);
      var cycle := if now.day != tm.cycle.day then NewDayCycle(now.day, sunrise, sunset) else tm.cycle;
      (TimeManager(now, cycle, tm.timeStep), Some(cycle.times[now.hour]))
    else
      (tm, None)
  }

  /** Twenty-four hourly steps bring the clock to the same hour of the next day. */
  lemma {:induction false} FullDay(m: Moment, n: nat)
    requires n <= HoursPerDay
    ensures Iterate(m, n).day * HoursPerDay + Iterate(m, n).hour == m.day * HoursPerDay + m.hour + n
    ensures n == HoursPerDay ==> Iterate(m, n) == Moment(m.day + 1, m.hour)
  {
    if n > 0 {
      FullDay(m, n - 1);
    }
  }

  /** The moment `n` hours after `m`. */
  function Iterate(m: Moment, n: nat): Moment {
    if n == 0 then m else NextHour(Iterate(m, n - 1))
  }
}
