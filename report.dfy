/**
 * report.py: pruning of sensors with too few packets, the Monday-to-Sunday week list the
 * report is laid out by, and the choice of which series are plotted.
 */
module Report {
  import opened Seqs
  import opened Frames

  // ---------------------------------------------------------------------------------------
  // sensor_stats

  /** A sensor with this many packets or fewer is dropped from the report. */
  const TooFewPackets := 1

  /** The per-sensor streams that `sensor_stats` leaves in place. */
  function Pruned<T>(streams: map<string, seq<T>>): (r: map<string, seq<T>>)
    ensures forall k :: k in r <==> k in streams && |streams[k]| > TooFewPackets
    ensures forall k :: k in r ==> r[k] == streams[k]
  {
    map k | k in streams && |streams[k]| > TooFewPackets :: streams[k]
  }

  /** The `dfs` dictionary of per-sensor streams, updated in place. */
  class SensorTable<T> {
    var streams: map<string, seq<T>>

    constructor (streams: map<string, seq<T>>)
      ensures this.streams == streams
    {
      this.streams := streams;
    }

    /** Drops, in place, every sensor with at most one packet and returns the same table. */
    method SensorStats() returns (r: SensorTable<T>)
      modifies this
      ensures r == this
      ensures streams == Pruned(old(streams))
    {
      var keys := streams.Keys;
      while keys != {}
        invariant keys <= old(streams).Keys
        invariant streams == map k | k in old(streams) && (k in keys || |old(streams)[k]| > TooFewPackets) :: old(streams)[k]
        decreases keys
      {
        var k :| k in keys;
        if |streams[k]| <= TooFewPackets {
          streams := streams - {k};
        }
        keys := keys - {k};
      }
      r := this;
    }
  }

  // ---------------------------------------------------------------------------------------
  // get_week_range

  /** A report week as a pair of day numbers: a Monday and the Sunday after it. */
  datatype Week = Week(start: int, end: int)

  /** Day 4 since the epoch, 1970-01-05, was a Monday. */
  predicate IsMonday(d: int)
  {
    d % 7 == 4
  }

  function FirstMondayFrom(d: int): (m: int)
    ensures IsMonday(m) && d <= m < d + 7
  {
    d + (4 - d) % 7
  }

  /** The Mondays from Monday `m` up to and including day `last`. */
  function MondaysFrom(m: int, last: int): (r: seq<int>)
    requires IsMonday(m)
    ensures |r| == if m > last then 0 else (last - m) / 7 + 1
    ensures forall i :: 0 <= i < |r| ==> r[i] == m + 7 * i
    decreases last - m
  {
    if m > last then [] else [m] + MondaysFrom(m + 7, last)
  }

  /** `pd.date_range(from, to, freq='W-MON', normalize=True)`: every Monday in the closed day range. */
  function Mondays(from: int, to: int): (r: seq<int>)
  {
    MondaysFrom(FirstMondayFrom(Day(from)), Day(to))
  }

  /** Exactly the Mondays between the two (normalised) days are listed. */
  lemma MondaysComplete(from: int, to: int, d: int)
    ensures d in Mondays(from, to) <==> IsMonday(d) && Day(from) <= d <= Day(to)
  {
    var m := FirstMondayFrom(Day(from));
    var r := Mondays(from, to);
    if IsMonday(d) && Day(from) <= d <= Day(to) {
      var k := (d - m) / 7;
      assert d == m + 7 * k;
      assert r[k] == d;
    }
  }

  /** Consecutive Mondays paired into (Monday, next Monday - 1 day). */
  function Pairs(ms: seq<int>): (r: seq<Week>)
    ensures |r| == if |ms| == 0 then 0 else |ms| - 1
    ensures forall i :: 0 <= i < |r| ==> r[i] == Week(ms[i], ms[i + 1] - 1)
  {
    if |ms| <= 1 then [] else [Week(ms[0], ms[1] - 1)] + Pairs(ms[1..])
  }

  const WeekPadSeconds := 7 * DaySeconds

  /** The weeks considered before empty ones are skipped: the span padded by 7 days each side. */
  function CandidateWeeks(tStart: int, tEnd: int): seq<Week>
  {
    Pairs(Mondays(tStart - WeekPadSeconds, tEnd + WeekPadSeconds))
  }

  /** The candidate weeks are the consecutive weeks starting at some Monday `m`. */
  lemma CandidateWeeksFrom(tStart: int, tEnd: int) returns (m: int)
    ensures IsMonday(m)
    ensures forall i :: 0 <= i < |CandidateWeeks(tStart, tEnd)| ==>
      CandidateWeeks(tStart, tEnd)[i] == Week(m + 7 * i, m + 7 * i + 6)
  {
    var ms := Mondays(tStart - WeekPadSeconds, tEnd + WeekPadSeconds);
    m := FirstMondayFrom(Day(tStart - WeekPadSeconds));
    var c := CandidateWeeks(tStart, tEnd);
    forall i | 0 <= i < |c|
      ensures c[i] == Week(m + 7 * i, m + 7 * i + 6)
    {
      assert c[i] == Week(ms[i], ms[i + 1] - 1);
      assert ms[i + 1] == m + 7 * (i + 1);
    }
  }

  /** Each candidate week runs Monday to Sunday and the next one starts the day after. */
  lemma CandidateWeeksShape(tStart: int, tEnd: int)
    ensures forall i :: 0 <= i < |CandidateWeeks(tStart, tEnd)| ==>
      IsMonday(CandidateWeeks(tStart, tEnd)[i].start) &&
      CandidateWeeks(tStart, tEnd)[i].end == CandidateWeeks(tStart, tEnd)[i].start + 6
    ensures forall i :: 0 <= i < |CandidateWeeks(tStart, tEnd)| - 1 ==>
      CandidateWeeks(tStart, tEnd)[i + 1].start == CandidateWeeks(tStart, tEnd)[i].end + 1
  {
    var m := CandidateWeeksFrom(tStart, tEnd);
    var c := CandidateWeeks(tStart, tEnd);
    forall i | 0 <= i < |c|
      ensures IsMonday(c[i].start)
    {
      assert c[i].start == m + 7 * i;
    }
  }

  /** Candidate weeks are in ascending order and do not overlap. */
  lemma CandidateWeeksOrdered(tStart: int, tEnd: int)
    ensures forall i, j :: 0 <= i < j < |CandidateWeeks(tStart, tEnd)| ==>
      CandidateWeeks(tStart, tEnd)[i].end < CandidateWeeks(tStart, tEnd)[j].start
  {
    var m := CandidateWeeksFrom(tStart, tEnd);
  }

  /** Padding a timestamp by a week moves its day by exactly seven. */
  lemma PaddedDays(t: int)
    ensures Day(t - WeekPadSeconds) == Day(t) - 7 && Day(t + WeekPadSeconds) == Day(t) + 7
  {
    assert t - WeekPadSeconds == (Day(t) - 7) * DaySeconds + TimeOfDay(t);
    assert t + WeekPadSeconds == (Day(t) + 7) * DaySeconds + TimeOfDay(t);
  }

  /** Later timestamps never fall on earlier days. */
  lemma DayMonotone(s: int, t: int)
    requires s <= t
    ensures Day(s) <= Day(t)
  {
    assert s == Day(s) * DaySeconds + TimeOfDay(s);
    assert t == Day(t) * DaySeconds + TimeOfDay(t);
  }

  /** The Monday that starts the week containing day `d`. */
  lemma MondayOnOrBefore(d: int) returns (m: int)
    ensures IsMonday(m) && d - 6 <= m <= d
  {
    m := d - (d - 4) % 7;
  }

  /** Two Mondays are a whole number of weeks apart. */
  lemma MondayDistance(m: int, n: int) returns (k: nat)
    requires IsMonday(m) && IsMonday(n) && m <= n
    ensures n == m + 7 * k
  {
    assert (n - m) % 7 == 0;
    k := (n - m) / 7;
  }

  /** Every day in the span falls in some candidate week. */
  lemma CandidateWeeksCover(tStart: int, tEnd: int, t: int) returns (i: nat)
    requires tStart <= t <= tEnd
    ensures i < |CandidateWeeks(tStart, tEnd)|
    ensures CandidateWeeks(tStart, tEnd)[i].start <= Day(t) <= CandidateWeeks(tStart, tEnd)[i].end
  {
    PaddedDays(tStart);
    PaddedDays(tEnd);
    DayMonotone(tStart, t);
    DayMonotone(t, tEnd);
    var last := Day(tEnd + WeekPadSeconds);
    var mf := FirstMondayFrom(Day(tStart - WeekPadSeconds));
    var ms := Mondays(tStart - WeekPadSeconds, tEnd + WeekPadSeconds);
    assert ms == MondaysFrom(mf, last);
    var m0 := MondayOnOrBefore(Day(t));
    i := MondayDistance(mf, m0);
    assert 7 * (i + 1) <= last - mf;
    assert i + 1 < |ms|;
    assert ms[i] == m0 && ms[i + 1] == m0 + 7;
    assert CandidateWeeks(tStart, tEnd)[i] == Week(ms[i], ms[i + 1] - 1);
  }

  /** A week's data as written: readings from Monday 00:00 to Sunday 00:00, both included. */
  predicate HasDataAsWritten(w: Week, readings: seq<Reading>)
  {
    exists r :: r in readings && Midnight(w.start) <= r.time <= Midnight(w.end)
  }

  /** get_week_range as written: weeks whose Monday-00:00..Sunday-00:00 slice is non-empty. */
  function WeekRangeAsWritten(tStart: int, tEnd: int, readings: seq<Reading>): seq<Week>
  {
    Filter(CandidateWeeks(tStart, tEnd), w => HasDataAsWritten(w, readings))
  }

  /** A week's data as the report intends it: readings on any day from Monday to Sunday. */
  predicate HasData(w: Week, readings: seq<Reading>)
  {
    exists r :: r in readings && w.start <= Day(r.time) <= w.end
  }

  /** get_week_range with the week's last day counted in full. */
  function WeekRange(tStart: int, tEnd: int, readings: seq<Reading>): seq<Week>
  {
    Filter(CandidateWeeks(tStart, tEnd), w => HasData(w, readings))
  }

  /**
   * As written, a reading on Sunday after midnight belongs to no week: a report whose only
   * reading is on Sunday 1970-01-11 at noon gets no week at all (and `weeks[0]` then fails).
   */
  lemma SundayReadingDropped()
    ensures var readings := [Reading(10 * DaySeconds + 43200, "S1", map[])];
      WeekRangeAsWritten(readings[0].time, readings[0].time, readings) == [] &&
      WeekRange(readings[0].time, readings[0].time, readings) == [Week(4, 10)]
  {
    var t := 10 * DaySeconds + 43200;
    var readings := [Reading(t, "S1", map[])];
    var ms := Mondays(t - WeekPadSeconds, t + WeekPadSeconds);
    assert Day(t - WeekPadSeconds) == 3 && Day(t + WeekPadSeconds) == 17;
    assert ms == [4, 11];
    var c := CandidateWeeks(t, t);
    assert c == [Week(4, 10)];
    assert !HasDataAsWritten(c[0], readings);
    assert HasData(c[0], readings) by {
      assert readings[0] in readings;
    }
    assert c[1..] == [];
  }

  /**
   * As written, a week is kept exactly when a reading lies between its Monday 00:00 and its
   * Sunday 00:00, inclusive, and kept weeks stay ascending.
   */
  lemma WeekRangeAsWrittenKeeps(tStart: int, tEnd: int, readings: seq<Reading>)
    ensures forall w :: w in WeekRangeAsWritten(tStart, tEnd, readings) <==>
      w in CandidateWeeks(tStart, tEnd) &&
      exists r :: r in readings && Midnight(w.start) <= r.time <= Midnight(w.end)
    ensures IsSubsequence(WeekRangeAsWritten(tStart, tEnd, readings), CandidateWeeks(tStart, tEnd))
    ensures forall i, j :: 0 <= i < j < |WeekRangeAsWritten(tStart, tEnd, readings)| ==>
      WeekRangeAsWritten(tStart, tEnd, readings)[i].end < WeekRangeAsWritten(tStart, tEnd, readings)[j].start
  {
    var p := (w: Week) => HasDataAsWritten(w, readings);
    FilterIsSubsequence(CandidateWeeks(tStart, tEnd), p);
    CandidateWeeksOrdered(tStart, tEnd);
    FilterOrdered(CandidateWeeks(tStart, tEnd), p, (a: Week, b: Week) => a.end < b.start);
  }

  /** A week is kept exactly when it is a candidate that has data, and kept weeks stay ascending. */
  lemma WeekRangeKeeps(tStart: int, tEnd: int, readings: seq<Reading>)
    ensures forall w :: w in WeekRange(tStart, tEnd, readings) <==>
      w in CandidateWeeks(tStart, tEnd) && HasData(w, readings)
    ensures IsSubsequence(WeekRange(tStart, tEnd, readings), CandidateWeeks(tStart, tEnd))
    ensures forall i, j :: 0 <= i < j < |WeekRange(tStart, tEnd, readings)| ==>
      WeekRange(tStart, tEnd, readings)[i].end < WeekRange(tStart, tEnd, readings)[j].start
  {
    var p := (w: Week) => HasData(w, readings);
    FilterIsSubsequence(CandidateWeeks(tStart, tEnd), p);
    CandidateWeeksOrdered(tStart, tEnd);
    FilterOrdered(CandidateWeeks(tStart, tEnd), p, (a: Week, b: Week) => a.end < b.start);
  }

  /** Every reading between the first and last timestamp lies in one of the kept weeks. */
  lemma WeekRangeCovers(tStart: int, tEnd: int, readings: seq<Reading>, r: Reading)
    requires r in readings && tStart <= r.time <= tEnd
    ensures exists w :: w in WeekRange(tStart, tEnd, readings) && w.start <= Day(r.time) <= w.end
  {
    var i := CandidateWeeksCover(tStart, tEnd, r.time);
    var w := CandidateWeeks(tStart, tEnd)[i];
    assert HasData(w, readings);
    assert w in WeekRange(tStart, tEnd, readings);
  }

  // ---------------------------------------------------------------------------------------
  // Series selection in report()

  /** A plot type: the DataFrame column and the axis label. */
  datatype PlotType = PlotType(column: string, axisLabel: string)

  const Types: seq<PlotType> := [
    PlotType("Temp", "Temperature ˚C"),
    PlotType("Humidity", "Humidity %RH"),
    PlotType("Light", "Light (lux)"),
    PlotType("PIRDiff", "Movement (PIR counts per minute)"),
    PlotType("RSSI", "RX Signal (dBm)")
  ]

  /** The series keys, position by position with `Types`. */
  const SeriesNames: seq<string> := ["temperature", "humidity", "light", "movement", "rssi"]

  function TypesListed(series: seq<string>, i: nat): (r: seq<PlotType>)
    requires i <= |Types|
    decreases |Types| - i
  {
    if i == |Types| then []
    else (if SeriesNames[i] in series then [Types[i]] else []) + TypesListed(series, i + 1)
  }

  /** The plot types rendered for a requested series list (None and [] both mean "default"). */
  function SelectTypes(series: seq<string>): (r: seq<PlotType>)
    ensures |series| == 0 ==> |r| == 2 && r[0].column == "PIRDiff" && r[1].column == "RSSI"
  {
    if |series| > 0 then TypesListed(series, 0) else Types[3..]
  }

  /** The plot types differ (already in their column's first letter). */
  lemma TypesDistinct()
    ensures forall i, j :: 0 <= i < j < |Types| ==> Types[i] != Types[j]
  {
    assert forall i :: 0 <= i < |Types| ==> |Types[i].column| > 0;
    assert Types[0].column[0] == 'T' && Types[1].column[0] == 'H' && Types[2].column[0] == 'L';
    assert Types[3].column[0] == 'P' && Types[4].column[0] == 'R';
  }

  lemma {:induction false} TypesListedSpec(series: seq<string>, i: nat)
    requires i <= |Types|
    ensures IsSubsequence(TypesListed(series, i), Types[i..])
    ensures forall j :: 0 <= j < |Types| ==>
      (Types[j] in TypesListed(series, i) <==> i <= j && SeriesNames[j] in series)
    decreases |Types| - i
  {
    if i < |Types| {
      TypesListedSpec(series, i + 1);
      TypesDistinct();
      var rest := TypesListed(series, i + 1);
      var head := if SeriesNames[i] in series then [Types[i]] else [];
      assert TypesListed(series, i) == head + rest;
      assert Types[i..][1..] == Types[i + 1..];
      if SeriesNames[i] in series {
        assert TypesListed(series, i)[1..] == rest;
      } else {
        assert TypesListed(series, i) == rest;
        assert IsSubsequence(rest, Types[i..][1..]);
        SubsequenceOfTail(rest, Types[i..]);
      }
      forall j | 0 <= j < |Types|
        ensures Types[j] in TypesListed(series, i) <==> i <= j && SeriesNames[j] in series
      {
        if Types[j] in head {
          assert Types[j] == Types[i];
        }
      }
    }
  }

  /**
   * With a non-empty series list the selected types keep the canonical order and are
   * exactly those whose key is listed.
   */
  lemma SelectTypesListed(series: seq<string>)
    requires |series| > 0
    ensures IsSubsequence(SelectTypes(series), Types)
    ensures forall j :: 0 <= j < |Types| ==> (Types[j] in SelectTypes(series) <==> SeriesNames[j] in series)
  {
    TypesListedSpec(series, 0);
    assert Types[0..] == Types;
  }
}
