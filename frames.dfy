/**
 * Rows of the sensor DataFrames, reduced to what the modelled code inspects: the
 * timestamp index (seconds since the Unix epoch, UTC, no time zone) and the sensor name.
 */
module Frames {

  const DaySeconds := 86400

  /** One reading; `values` stands for the data columns, which the modelled code never inspects. */
  datatype Reading = Reading(time: int, sensor: string, values: map<string, int>)

  /** The calendar day (days since 1970-01-01) a timestamp falls on; pandas' `normalize`. */
  function Day(t: int): int
  {
    t / DaySeconds
  }

  /** Seconds since midnight of the day `t` falls on. */
  function TimeOfDay(t: int): (s: int)
    ensures 0 <= s < DaySeconds
    ensures t == Day(t) * DaySeconds + s
  {
    t % DaySeconds
  }

  /** Midnight at the start of day `d`. */
  function Midnight(d: int): (t: int)
    ensures Day(t) == d && TimeOfDay(t) == 0
  {
    d * DaySeconds
  }
}
