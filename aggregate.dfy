/**
 * aggregate.py: the helpers around the monthly aggregate tables: list transposition, the
 * range statistic, the working-hours row filter, the extraction of the warmest/coldest/...
 * sensor per period and the reshaping of those statistics into header/row dictionaries.
 */
module Aggregate {
  import opened Wrappers
  import opened Seqs
  import opened Frames
  import Text

  // ---------------------------------------------------------------------------------------
  // transpose: list(map(list, zip(*l)))

  /** The length of the shortest row. */
  function MinLen<T>(l: seq<seq<T>>): (n: nat)
    requires |l| > 0
    ensures forall i :: 0 <= i < |l| ==> n <= |l[i]|
    ensures exists i :: 0 <= i < |l| && |l[i]| == n
    decreases |l|
  {
    if |l| == 1 then |l[0]|
    else
      var m := MinLen(l[1..]);
      if |l[0]| <= m then |l[0]| else m
  }

  /** `zip(*l)` as lists: one output row per column of the shortest input row. */
  function Transpose<T>(l: seq<seq<T>>): (r: seq<seq<T>>)
    ensures |l| == 0 ==> r == []
    ensures |l| > 0 ==> |r| == MinLen(l)
    ensures forall j :: 0 <= j < |r| ==> |r[j]| == |l|
    ensures forall j, i :: 0 <= j < |r| && 0 <= i < |l| ==> j < |l[i]| && r[j][i] == l[i][j]
  {
    if |l| == 0 then []
    else
      var n := MinLen(l);
      seq(n, j requires 0 <= j < n => seq(|l|, i requires 0 <= i < |l| => l[i][j]))
  }

  predicate Rectangular<T>(l: seq<seq<T>>, n: nat)
  {
    forall i :: 0 <= i < |l| ==> |l[i]| == n
  }

  /** An m-by-n rectangle (m >= 1) transposes to an n-by-m rectangle. */
  lemma TransposeShape<T>(l: seq<seq<T>>, n: nat)
    requires |l| > 0 && Rectangular(l, n)
    ensures |Transpose(l)| == n && Rectangular(Transpose(l), |l|)
  {
    var i :| 0 <= i < |l| && |l[i]| == MinLen(l);
  }

  /** A row shorter than the others truncates the result; an empty row empties it. */
  lemma TransposeRagged<T>(l: seq<seq<T>>, i: nat)
    requires i < |l|
    ensures |Transpose(l)| <= |l[i]|
    ensures |l[i]| == 0 ==> Transpose(l) == []
  {
  }

  /** Transposing twice gives back a rectangle with at least one row and one column. */
  lemma TransposeTwice<T>(l: seq<seq<T>>, n: nat)
    requires |l| > 0 && n > 0 && Rectangular(l, n)
    ensures Transpose(Transpose(l)) == l
  {
    TransposeShape(l, n);
    var t := Transpose(l);
    TransposeShape(t, |l|);
    var tt := Transpose(t);
    assert |tt| == |l|;
    forall i | 0 <= i < |l|
      ensures tt[i] == l[i]
    {
      assert |tt[i]| == n;
      forall j | 0 <= j < n
        ensures tt[i][j] == l[i][j]
      {
        assert tt[i][j] == t[j][i];
      }
    }
  }

  // ---------------------------------------------------------------------------------------
  // find_range: np.ptp(x)

  function Max(x: seq<int>): (m: int)
    requires |x| > 0
    ensures m in x
    ensures forall i :: 0 <= i < |x| ==> x[i] <= m
    decreases |x|
  {
    if |x| == 1 then x[0]
    else
      var m := Max(x[1..]);
      if x[0] >= m then x[0] else m
  }

  function Min(x: seq<int>): (m: int)
    requires |x| > 0
    ensures m in x
    ensures forall i :: 0 <= i < |x| ==> m <= x[i]
    decreases |x|
  {
    if |x| == 1 then x[0]
    else
      var m := Min(x[1..]);
      if x[0] <= m then x[0] else m
  }

  /** max(x) - min(x): the largest difference between two values; None where numpy raises on an empty series. */
  function FindRange(x: seq<int>): (r: Option<nat>)
    ensures r.None? <==> |x| == 0
    ensures r.Some? ==> forall i, j :: 0 <= i < |x| && 0 <= j < |x| ==> x[i] - x[j] <= r.value
    ensures r.Some? ==> exists i, j :: 0 <= i < |x| && 0 <= j < |x| && x[i] - x[j] == r.value
  {
    if |x| == 0 then None
    else
      Some(Max(x) - Min(x))
  }

  /** The range is zero exactly for a constant series. */
  lemma FindRangeZero(x: seq<int>)
    requires |x| > 0
    ensures FindRange(x).value == 0 <==> forall i, j :: 0 <= i < |x| && 0 <= j < |x| ==> x[i] == x[j]
  {
    var r := FindRange(x).value;
    if r == 0 {
      forall i, j | 0 <= i < |x| && 0 <= j < |x|
        ensures x[i] == x[j]
      {
        assert x[i] - x[j] <= 0 && x[j] - x[i] <= 0;
      }
    }
  }

  // ---------------------------------------------------------------------------------------
  // limit_by_hours

  /** WORK_HOURS = ('09:00', '17:00') as seconds after midnight. */
  const WorkStart := 9 * 3600
  const WorkEnd := 17 * 3600

  /**
   * `indexer_between_time(start, end, include_start=True, include_end=False)`: a half-open
   * time-of-day window, wrapping past midnight when it starts after it ends.
   */
  predicate BetweenTime(tod: int, start: int, end: int)
  {
    if start <= end then start <= tod < end else start <= tod || tod < end
  }

  function LimitByHours(rows: seq<Reading>, start: int, end: int): seq<Reading>
  {
    Filter(rows, (row: Reading) => BetweenTime(TimeOfDay(row.time), start, end))
  }

  /**
   * The rows kept are exactly (with multiplicity) those whose time of day lies in the
   * window, in their original order; filtering again changes nothing.
   */
  lemma LimitByHoursSpec(rows: seq<Reading>, start: int, end: int)
    ensures IsSubsequence(LimitByHours(rows, start, end), rows)
    ensures forall row :: multiset(LimitByHours(rows, start, end))[row] ==
                          if BetweenTime(TimeOfDay(row.time), start, end) then multiset(rows)[row] else 0
    ensures LimitByHours(LimitByHours(rows, start, end), start, end) == LimitByHours(rows, start, end)
  {
    var p := (row: Reading) => BetweenTime(TimeOfDay(row.time), start, end);
    FilterIsSubsequence(rows, p);
    FilterIdempotent(rows, p);
    forall row
      ensures multiset(LimitByHours(rows, start, end))[row] ==
        if BetweenTime(TimeOfDay(row.time), start, end) then multiset(rows)[row] else 0
    {
      FilterCount(rows, p, row);
    }
  }

  /** With the default working hours a row is kept iff it is stamped in [09:00, 17:00). */
  lemma WorkHoursWindow(rows: seq<Reading>)
    ensures forall row :: row in LimitByHours(rows, WorkStart, WorkEnd) <==>
      row in rows && 32400 <= TimeOfDay(row.time) < 61200
  {
  }

  // ---------------------------------------------------------------------------------------
  // extract_stats

  /** The pandas reduction applied to a column: `idxmax` or `idxmin`. */
  datatype Pick = IdxMax | IdxMin

  /** One entry of an operations list: (aggregate column, operation, label). */
  datatype Operation = Operation(column: string, pick: Pick, heading: string)

  /** The operations per series, in dictionary order. */
  type Operations = seq<(string, seq<Operation>)>

  /** One sensor's row of a period's aggregate table, keyed by (series, aggregate). */
  datatype SensorRow = SensorRow(name: string, cols: map<(string, string), int>)

  /** A (label, sensor name, value) entry of the statistics. */
  datatype Stat = Stat(heading: string, name: string, value: int)

  const DefaultOperations: Operations := [
    ("Temp", [
      Operation("mean", IdxMax, "Warmest average"),
      Operation("max", IdxMax, "Maximum temperature"),
      Operation("mean", IdxMin, "Coldest average"),
      Operation("min", IdxMin, "Minimum temperature"),
      Operation("range", IdxMax, "Temperature range")]),
    ("Humidity", [
      Operation("mean", IdxMax, "Humidest average"),
      Operation("max", IdxMax, "Maximum humidity"),
      Operation("mean", IdxMin, "Dryest average"),
      Operation("min", IdxMin, "Minimum humidity")]),
    ("Light", [
      Operation("mean", IdxMax, "Brightest average"),
      Operation("max", IdxMax, "Maximum brightness"),
      Operation("mean", IdxMin, "Darkest average"),
      Operation("min", IdxMin, "Minimum brightness")])
  ]

  /** `Series.idxmax()`: the first position holding the largest value. */
  function IdxMaxOf(vals: seq<int>): (k: nat)
    requires |vals| > 0
    ensures k < |vals|
    ensures forall j :: 0 <= j < |vals| ==> vals[j] <= vals[k]
    ensures forall j :: 0 <= j < k ==> vals[j] < vals[k]
    decreases |vals|
  {
    if |vals| == 1 then 0
    else
      var k := IdxMaxOf(vals[1..]) + 1;
      if vals[0] >= vals[k] then 0 else k
  }

  /** `Series.idxmin()`: the first position holding the smallest value. */
  function IdxMinOf(vals: seq<int>): (k: nat)
    requires |vals| > 0
    ensures k < |vals|
    ensures forall j :: 0 <= j < |vals| ==> vals[k] <= vals[j]
    ensures forall j :: 0 <= j < k ==> vals[k] < vals[j]
    decreases |vals|
  {
    if |vals| == 1 then 0
    else
      var k := IdxMinOf(vals[1..]) + 1;
      if vals[0] <= vals[k] then 0 else k
  }

  predicate HasColumn(frame: seq<SensorRow>, c: (string, string))
  {
    forall i :: 0 <= i < |frame| ==> c in frame[i].cols
  }

  /** Every column one series' operations read is present. */
  predicate ListCovered(frame: seq<SensorRow>, series: string, list: seq<Operation>)
  {
    forall j :: 0 <= j < |list| ==> HasColumn(frame, (series, list[j].column))
  }

  /** A period's table is non-empty and has every column the operations read. */
  predicate Covers(frame: seq<SensorRow>, ops: Operations)
  {
    |frame| > 0 && forall k :: 0 <= k < |ops| ==> ListCovered(frame, ops[k].0, ops[k].1)
  }

  function Column(frame: seq<SensorRow>, c: (string, string)): (vals: seq<int>)
    requires HasColumn(frame, c)
    ensures |vals| == |frame| && forall i :: 0 <= i < |frame| ==> vals[i] == frame[i].cols[c]
  {
    seq(|frame|, i requires 0 <= i < |frame| => frame[i].cols[c])
  }

  /** One statistic: the sensor an operation picks and its value. */
  function StatFor(frame: seq<SensorRow>, series: string, op: Operation): Stat
    requires |frame| > 0 && HasColumn(frame, (series, op.column))
  {
    var vals := Column(frame, (series, op.column));
    var k := if op.pick == IdxMax then IdxMaxOf(vals) else IdxMinOf(vals);
    Stat(op.heading, frame[k].name, vals[k])
  }

  /**
   * The statistic names one sensor of the period together with that sensor's own value, and
   * the value is at least (idxmax) or at most (idxmin) every sensor's value in the period.
   */
  lemma StatForSpec(frame: seq<SensorRow>, series: string, op: Operation)
    requires |frame| > 0 && HasColumn(frame, (series, op.column))
    ensures StatFor(frame, series, op).heading == op.heading
    ensures exists i :: (0 <= i < |frame| && frame[i].name == StatFor(frame, series, op).name &&
                         frame[i].cols[(series, op.column)] == StatFor(frame, series, op).value)
    ensures op.pick == IdxMax ==> forall i :: 0 <= i < |frame| ==>
      frame[i].cols[(series, op.column)] <= StatFor(frame, series, op).value
    ensures op.pick == IdxMin ==> forall i :: 0 <= i < |frame| ==>
      StatFor(frame, series, op).value <= frame[i].cols[(series, op.column)]
  {
    var vals := Column(frame, (series, op.column));
    var k := if op.pick == IdxMax then IdxMaxOf(vals) else IdxMinOf(vals);
    assert frame[k].cols[(series, op.column)] == vals[k];
  }

  /** The statistics of one series: one per operation, in the operations' order. */
  function SeriesStats(frame: seq<SensorRow>, series: string, list: seq<Operation>): seq<Stat>
    requires |frame| > 0 && ListCovered(frame, series, list)
    decreases |list|
  {
    if list == [] then []
    else SeriesStats(frame, series, list[..|list| - 1]) + [StatFor(frame, series, list[|list| - 1])]
  }

  /** A series' statistics are one per operation, each computed from that operation. */
  lemma {:induction false} SeriesStatsSpec(frame: seq<SensorRow>, series: string, list: seq<Operation>)
    requires |frame| > 0 && ListCovered(frame, series, list)
    ensures |SeriesStats(frame, series, list)| == |list|
    ensures forall j :: 0 <= j < |list| ==> SeriesStats(frame, series, list)[j] == StatFor(frame, series, list[j])
    decreases |list|
  {
    if list != [] {
      var pre := list[..|list| - 1];
      SeriesStatsSpec(frame, series, pre);
      assert forall j :: 0 <= j < |pre| ==> pre[j] == list[j];
    }
  }

  /** `stats.setdefault(series, [])` followed by one append per operation. */
  function AddSeries(prev: map<string, seq<Stat>>, frame: seq<SensorRow>, series: string, list: seq<Operation>)
    : map<string, seq<Stat>>
    requires |frame| > 0 && ListCovered(frame, series, list)
  {
    prev[series := (if series in prev then prev[series] else []) + SeriesStats(frame, series, list)]
  }

  /** `setdefault` leaves an existing entry alone and starts a missing one empty. */
  lemma AddSeriesStart(prev: map<string, seq<Stat>>, frame: seq<SensorRow>, series: string, list: seq<Operation>)
    requires |frame| > 0 && ListCovered(frame, series, list)
    ensures AddSeries(prev, frame, series, list[..0]) == if series in prev then prev else prev[series := []]
  {
    assert list[..0] == [];
    var ss := SeriesStats(frame, series, list[..0]);
    assert ss == [];
    if series in prev {
      assert prev[series] + ss == prev[series];
    }
  }

  /** Each operation appends its statistic to the series' list. */
  lemma AddSeriesStep(prev: map<string, seq<Stat>>, frame: seq<SensorRow>, series: string, list: seq<Operation>, o: nat)
    requires |frame| > 0 && ListCovered(frame, series, list) && o < |list|
    ensures var m := AddSeries(prev, frame, series, list[..o]);
      AddSeries(prev, frame, series, list[..o + 1]) == m[series := m[series] + [StatFor(frame, series, list[o])]]
  {
    assert list[..o + 1][..o] == list[..o];
    var base := if series in prev then prev[series] else [];
    var a := SeriesStats(frame, series, list[..o]);
    assert SeriesStats(frame, series, list[..o + 1]) == a + [StatFor(frame, series, list[o])];
    assert base + (a + [StatFor(frame, series, list[o])]) == (base + a) + [StatFor(frame, series, list[o])];
  }

  /** A series not yet in the dictionary is added with exactly its own statistics. */
  lemma PeriodStatsNewSeries(frame: seq<SensorRow>, ops: Operations)
    requires Covers(frame, ops) && ops != []
    requires Covers(frame, ops[..|ops| - 1]) && ops[|ops| - 1].0 !in PeriodStats(frame, ops[..|ops| - 1])
    ensures var n := |ops| - 1;
      PeriodStats(frame, ops) == PeriodStats(frame, ops[..n])[ops[n].0 := SeriesStats(frame, ops[n].0, ops[n].1)]
  {
    var n := |ops| - 1;
    var ss := SeriesStats(frame, ops[n].0, ops[n].1);
    assert PeriodStats(frame, ops) == AddSeries(PeriodStats(frame, ops[..n]), frame, ops[n].0, ops[n].1);
    assert [] + ss == ss;
  }

  /** The `stats` dictionary of one period, built series by series. */
  function PeriodStats(frame: seq<SensorRow>, ops: Operations): map<string, seq<Stat>>
    requires Covers(frame, ops)
    decreases |ops|
  {
    if ops == [] then map[]
    else
      var n := |ops| - 1;
      assert forall k :: 0 <= k < n ==> ops[..n][k] == ops[k];
      AddSeries(PeriodStats(frame, ops[..n]), frame, ops[n].0, ops[n].1)
  }

  /** The `results` dictionary: period -> stats, later periods overwriting equal keys. */
  function StatsByPeriod(agg: seq<(int, seq<SensorRow>)>, ops: Operations): map<int, map<string, seq<Stat>>>
    requires forall p :: 0 <= p < |agg| ==> Covers(agg[p].1, ops)
    decreases |agg|
  {
    if agg == [] then map[]
    else StatsByPeriod(agg[..|agg| - 1], ops)[agg[|agg| - 1].0 := PeriodStats(agg[|agg| - 1].1, ops)]
  }

  /** The body of extract_stats' period loop: the `stats` dictionary of one period. */
  method CollectPeriod(frame: seq<SensorRow>, ops: Operations) returns (stats: map<string, seq<Stat>>)
    requires Covers(frame, ops)
    ensures stats == PeriodStats(frame, ops)
  {
    stats := map[];
    var s := 0;
    while s < |ops|
      invariant 0 <= s <= |ops|
      invariant Covers(frame, ops[..s]) && stats == PeriodStats(frame, ops[..s])
    {
      var series, list := ops[s].0, ops[s].1;
      assert ListCovered(frame, series, list);
      ghost var prev := stats;
      if series !in stats {
        stats := stats[series := []];
      }
      AddSeriesStart(prev, frame, series, list);
      var o := 0;
      while o < |list|
        invariant 0 <= o <= |list|
        invariant stats == AddSeries(prev, frame, series, list[..o])
      {
        AddSeriesStep(prev, frame, series, list, o);
        stats := stats[series := stats[series] + [StatFor(frame, series, list[o])]];
        o := o + 1;
      }
      assert list[..|list|] == list;
      assert ops[..s + 1][..s] == ops[..s];
      s := s + 1;
    }
    assert ops[..|ops|] == ops;
  }

  /** extract_stats: for each period, for each series, one statistic per operation. */
  method ExtractStats(agg: seq<(int, seq<SensorRow>)>, ops: Operations)
    returns (results: map<int, map<string, seq<Stat>>>)
    requires forall p :: 0 <= p < |agg| ==> Covers(agg[p].1, ops)
    ensures results == StatsByPeriod(agg, ops)
  {
    results := map[];
    var p := 0;
    while p < |agg|
      invariant 0 <= p <= |agg|
      invariant results == StatsByPeriod(agg[..p], ops)
    {
      var stats := CollectPeriod(agg[p].1, ops);
      assert agg[..p + 1][..p] == agg[..p];
      results := results[agg[p].0 := stats];
      p := p + 1;
    }
    assert agg[..|agg|] == agg;
  }

  /** The results dictionary has exactly the periods as keys. */
  lemma {:induction false} StatsByPeriodKeys(agg: seq<(int, seq<SensorRow>)>, ops: Operations)
    requires forall p :: 0 <= p < |agg| ==> Covers(agg[p].1, ops)
    ensures StatsByPeriod(agg, ops).Keys == set p | 0 <= p < |agg| :: agg[p].0
    decreases |agg|
  {
    if agg != [] {
      var n := |agg| - 1;
      var pre := agg[..n];
      assert forall p :: 0 <= p < n ==> pre[p] == agg[p];
      StatsByPeriodKeys(pre, ops);
      var before := set p | 0 <= p < n :: pre[p].0;
      var after := set p | 0 <= p < |agg| :: agg[p].0;
      forall k | k in after ensures k in before + {agg[n].0} {
        var p :| 0 <= p < |agg| && agg[p].0 == k;
        if p < n { assert pre[p].0 == k; }
      }
      forall k | k in before ensures k in after {
        var p :| 0 <= p < n && pre[p].0 == k;
        assert agg[p].0 == k;
      }
    }
  }

  /**
   * A period that no later period repeats maps to its own statistics; with distinct periods,
   * as the first level of a pandas index holds them, that is every period.
   */
  lemma {:induction false} StatsByPeriodValue(agg: seq<(int, seq<SensorRow>)>, ops: Operations, p: nat)
    requires forall q :: 0 <= q < |agg| ==> Covers(agg[q].1, ops)
    requires p < |agg| && forall q :: p < q < |agg| ==> agg[q].0 != agg[p].0
    ensures agg[p].0 in StatsByPeriod(agg, ops)
    ensures StatsByPeriod(agg, ops)[agg[p].0] == PeriodStats(agg[p].1, ops)
    decreases |agg|
  {
    var n := |agg| - 1;
    if p < n {
      var pre := agg[..n];
      assert forall q :: 0 <= q < n ==> pre[q] == agg[q];
      StatsByPeriodValue(pre, ops, p);
      assert agg[n].0 != agg[p].0;
    }
  }

  predicate DistinctSeries(ops: Operations)
  {
    forall k, l :: 0 <= k < l < |ops| ==> ops[k].0 != ops[l].0
  }

  /** The period's dictionary has exactly the series as keys. */
  lemma {:induction false} PeriodStatsKeys(frame: seq<SensorRow>, ops: Operations)
    requires Covers(frame, ops)
    ensures PeriodStats(frame, ops).Keys == set k | 0 <= k < |ops| :: ops[k].0
    decreases |ops|
  {
    if ops != [] {
      var n := |ops| - 1;
      var pre := ops[..n];
      assert forall k :: 0 <= k < n ==> pre[k] == ops[k];
      PeriodStatsKeys(frame, pre);
      assert PeriodStats(frame, ops) == AddSeries(PeriodStats(frame, pre), frame, ops[n].0, ops[n].1);
      assert PeriodStats(frame, ops).Keys == PeriodStats(frame, pre).Keys + {ops[n].0};
      var before := set k | 0 <= k < n :: pre[k].0;
      var after := set k | 0 <= k < |ops| :: ops[k].0;
      forall x | x in after
        ensures x in before + {ops[n].0}
      {
        var k :| 0 <= k < |ops| && x == ops[k].0;
        if k < n {
          assert pre[k].0 == x;
        }
      }
      forall x | x in before
        ensures x in after
      {
        var k :| 0 <= k < n && x == pre[k].0;
        assert ops[k].0 == x;
      }
    }
  }

  /**
   * With distinct series names (a dictionary's keys), each series holds one statistic per
   * operation, in declaration order.
   */
  lemma {:induction false} PeriodStatsPerSeries(frame: seq<SensorRow>, ops: Operations)
    requires Covers(frame, ops) && DistinctSeries(ops)
    ensures forall k :: 0 <= k < |ops| ==>
      ops[k].0 in PeriodStats(frame, ops) && PeriodStats(frame, ops)[ops[k].0] == SeriesStats(frame, ops[k].0, ops[k].1)
    decreases |ops|
  {
    if ops != [] {
      var n := |ops| - 1;
      var pre := ops[..n];
      assert forall k :: 0 <= k < n ==> pre[k] == ops[k];
      PeriodStatsPerSeries(frame, pre);
      PeriodStatsKeys(frame, pre);
      var prev := PeriodStats(frame, pre);
      var series := ops[n].0;
      assert series !in prev;
      PeriodStatsNewSeries(frame, ops);
      var r := PeriodStats(frame, ops);
      assert r == prev[series := SeriesStats(frame, series, ops[n].1)];
      forall k | 0 <= k < |ops|
        ensures ops[k].0 in r && r[ops[k].0] == SeriesStats(frame, ops[k].0, ops[k].1)
      {
        if k < n {
          assert pre[k] == ops[k];
          assert ops[k].0 in prev && ops[k].0 != series;
          assert r[ops[k].0] == prev[ops[k].0];
        }
      }
    }
  }

  /** The operations dictionary's keys are distinct series. */
  lemma DefaultOperationsDistinct()
    ensures DistinctSeries(DefaultOperations)
  {
  }

  // ---------------------------------------------------------------------------------------
  // tabulate

  /** No later pair of the zip repeats key `i`. */
  predicate LastKey<T(==)>(keys: seq<T>, vals: seq<T>, i: nat)
  {
    forall j :: i < j < |keys| && j < |vals| ==> keys[j] != keys[i]
  }

  /** `dict(zip(keys, vals))`: pairs up to the shorter length; a repeated key keeps its last value. */
  function ZipDict<T(==)>(keys: seq<T>, vals: seq<T>): map<T, T>
    decreases |keys|
  {
    if |keys| == 0 || |vals| == 0 then map[]
    else map[keys[0] := vals[0]] + ZipDict(keys[1..], vals[1..])
  }

  /** The dictionary's keys are the keys that have a value to pair with. */
  lemma {:induction false} ZipDictKeys<T>(keys: seq<T>, vals: seq<T>)
    ensures ZipDict(keys, vals).Keys == set i | 0 <= i < |keys| && i < |vals| :: keys[i]
    decreases |keys|
  {
    if |keys| > 0 && |vals| > 0 {
      ZipDictKeys(keys[1..], vals[1..]);
      var rest := set i | 0 <= i < |keys| - 1 && i < |vals| - 1 :: keys[1..][i];
      var all := set i | 0 <= i < |keys| && i < |vals| :: keys[i];
      forall k | k in all
        ensures k in rest + {keys[0]}
      {
        var i :| 0 <= i < |keys| && i < |vals| && k == keys[i];
        if i > 0 {
          assert keys[1..][i - 1] == keys[i];
        }
      }
      forall k | k in rest
        ensures k in all
      {
        var i :| 0 <= i < |keys| - 1 && i < |vals| - 1 && k == keys[1..][i];
        assert keys[i + 1] == k;
      }
    }
  }

  /** A key that no later pair repeats maps to its own value. */
  lemma {:induction false} ZipDictLast<T>(keys: seq<T>, vals: seq<T>, i: nat)
    requires i < |keys| && i < |vals| && LastKey(keys, vals, i)
    ensures keys[i] in ZipDict(keys, vals) && ZipDict(keys, vals)[keys[i]] == vals[i]
    decreases |keys|
  {
    if i > 0 {
      forall j | i - 1 < j < |keys| - 1 && j < |vals| - 1
        ensures keys[1..][j] != keys[1..][i - 1]
      {
        assert keys[1..][j] == keys[j + 1];
      }
      assert LastKey(keys[1..], vals[1..], i - 1);
      ZipDictLast(keys[1..], vals[1..], i - 1);
      assert keys[1..][i - 1] == keys[i];
    } else if |keys| > 1 && |vals| > 1 {
      ZipDictKeys(keys[1..], vals[1..]);
      assert keys[0] !in ZipDict(keys[1..], vals[1..]);
    }
  }

  /**
   * One series' reshaping: the transposed statistics' first row becomes the headers and
   * every later row a dictionary keyed by them; None where `t_data[0]` raises IndexError.
   */
  function Reshape<T(==)>(data: seq<seq<T>>): Option<(seq<T>, seq<map<T, T>>)>
  {
    var t := Transpose(data);
    if |t| == 0 then None
    else Some((t[0], seq(|t| - 1, v requires 0 <= v < |t| - 1 => ZipDict(t[0], t[v + 1]))))
  }

  /** Reshaping fails exactly when there are no rows or some row is empty. */
  lemma ReshapeFails<T>(data: seq<seq<T>>)
    ensures Reshape(data).None? <==> |data| == 0 || exists i :: 0 <= i < |data| && |data[i]| == 0
  {
  }

  predicate DistinctHeadings<T(==)>(rows: seq<seq<T>>)
    requires forall i :: 0 <= i < |rows| ==> |rows[i]| > 0
  {
    forall i, j :: 0 <= i < j < |rows| ==> rows[i][0] != rows[j][0]
  }

  /**
   * Reshaping non-empty (label, name, value) rows with distinct labels gives the labels as
   * headers and two dictionaries: label -> name and label -> value.
   */
  lemma ReshapeStatRows<T>(rows: seq<seq<T>>)
    requires |rows| > 0 && Rectangular(rows, 3) && DistinctHeadings(rows)
    ensures Reshape(rows).Some?
    ensures var headers := Reshape(rows).value.0; var dicts := Reshape(rows).value.1;
      |headers| == |rows| && |dicts| == 2 &&
      (forall i :: 0 <= i < |rows| ==> headers[i] == rows[i][0]) &&
      dicts[0].Keys == dicts[1].Keys == (set i | 0 <= i < |rows| :: rows[i][0]) &&
      forall i :: 0 <= i < |rows| ==> dicts[0][rows[i][0]] == rows[i][1] && dicts[1][rows[i][0]] == rows[i][2]
  {
    TransposeShape(rows, 3);
    var t := Transpose(rows);
    var dicts := Reshape(rows).value.1;
    assert dicts[0] == ZipDict(t[0], t[1]) && dicts[1] == ZipDict(t[0], t[2]);
    ZipDictKeys(t[0], t[1]);
    ZipDictKeys(t[0], t[2]);
    forall i | 0 <= i < |rows|
      ensures t[0][i] == rows[i][0] && t[1][i] == rows[i][1] && t[2][i] == rows[i][2]
      ensures dicts[0][rows[i][0]] == rows[i][1] && dicts[1][rows[i][0]] == rows[i][2]
    {
      assert LastKey(t[0], t[1], i) && LastKey(t[0], t[2], i);
      ZipDictLast(t[0], t[1], i);
      ZipDictLast(t[0], t[2], i);
    }
    assert (set i | 0 <= i < |t[0]| && i < |t[1]| :: t[0][i]) == set i | 0 <= i < |rows| :: rows[i][0];
    assert (set i | 0 <= i < |t[0]| && i < |t[2]| :: t[0][i]) == set i | 0 <= i < |rows| :: rows[i][0];
  }

  /** The key a series' rows are stored under: `series.lower() + '_table'`. */
  function TableKey(series: string): string
  {
    Text.Lower(series) + "_table"
  }

  /** No later series is stored under the same key as series `i`. */
  predicate LastWithKey<T(==)>(stats: seq<(string, seq<seq<T>>)>, i: nat)
    requires i < |stats|
  {
    forall j :: i < j < |stats| ==> TableKey(stats[j].0) != TableKey(stats[i].0)
  }

  /**
   * Storing values under their keys one after another, a later value overwriting an earlier
   * one under the same key; None once a value is missing.
   */
  function Store<V>(keys: seq<string>, vals: seq<Option<V>>): Option<map<string, V>>
    requires |keys| == |vals|
    decreases |keys|
  {
    if |keys| == 0 then Some(map[])
    else
      var n := |keys| - 1;
      var prev := Store(keys[..n], vals[..n]);
      if prev.None? || vals[n].None? then None
      else Some(prev.value[keys[n] := vals[n].value])
  }

  /** Storing fails exactly when some value is missing. */
  lemma {:induction false} StoreFails<V>(keys: seq<string>, vals: seq<Option<V>>)
    requires |keys| == |vals|
    ensures Store(keys, vals).None? <==> exists i :: 0 <= i < |vals| && vals[i].None?
    decreases |keys|
  {
    if |keys| > 0 {
      var n := |keys| - 1;
      StoreFails(keys[..n], vals[..n]);
      if Store(keys[..n], vals[..n]).None? {
        var i :| 0 <= i < n && vals[..n][i].None?;
        assert vals[i].None?;
      } else if vals[n].Some? {
        forall i | 0 <= i < |vals|
          ensures vals[i].Some?
        {
          if i < n {
            assert vals[..n][i] == vals[i];
          }
        }
      }
    }
  }

  /** A successful store holds exactly the given keys. */
  lemma {:induction false} StoreKeys<V>(keys: seq<string>, vals: seq<Option<V>>)
    requires |keys| == |vals| && Store(keys, vals).Some?
    ensures Store(keys, vals).value.Keys == set i | 0 <= i < |keys| :: keys[i]
    decreases |keys|
  {
    if |keys| > 0 {
      var n := |keys| - 1;
      StoreKeys(keys[..n], vals[..n]);
      var before := set i | 0 <= i < n :: keys[..n][i];
      var after := set i | 0 <= i < |keys| :: keys[i];
      assert Store(keys, vals).value.Keys == before + {keys[n]};
      forall k | k in after
        ensures k in before + {keys[n]}
      {
        var i :| 0 <= i < |keys| && k == keys[i];
        if i < n {
          assert keys[..n][i] == keys[i];
        }
      }
      forall k | k in before
        ensures k in after
      {
        var i :| 0 <= i < n && k == keys[..n][i];
        assert keys[i] == k;
      }
    }
  }

  /** The value of a key that no later position repeats is the one stored. */
  lemma {:induction false} StoreLast<V>(keys: seq<string>, vals: seq<Option<V>>, i: nat)
    requires |keys| == |vals| && Store(keys, vals).Some? && i < |keys|
    requires forall j :: i < j < |keys| ==> keys[j] != keys[i]
    ensures vals[i].Some? && keys[i] in Store(keys, vals).value
    ensures Store(keys, vals).value[keys[i]] == vals[i].value
    decreases |keys|
  {
    var n := |keys| - 1;
    var prev := Store(keys[..n], vals[..n]);
    assert prev.Some? && vals[n].Some?;
    assert Store(keys, vals).value == prev.value[keys[n] := vals[n].value];
    if i < n {
      assert keys[..n][i] == keys[i] && vals[..n][i] == vals[i];
      forall j | i < j < n
        ensures keys[..n][j] != keys[..n][i]
      {
        assert keys[..n][j] == keys[j];
      }
      StoreLast(keys[..n], vals[..n], i);
    }
  }

  /** The table key of every series, in order. */
  function TableKeys<T>(stats: seq<(string, seq<seq<T>>)>): (keys: seq<string>)
    ensures |keys| == |stats| && forall i :: 0 <= i < |stats| ==> keys[i] == TableKey(stats[i].0)
  {
    seq(|stats|, i requires 0 <= i < |stats| => TableKey(stats[i].0))
  }

  /** The reshaped rows of every series, in order. */
  function Reshaped<T(==)>(stats: seq<(string, seq<seq<T>>)>): (vals: seq<Option<seq<map<T, T>>>>)
    ensures |vals| == |stats|
    ensures forall i :: 0 <= i < |stats| ==> vals[i].None? == Reshape(stats[i].1).None?
    ensures forall i :: 0 <= i < |stats| && vals[i].Some? ==> vals[i].value == Reshape(stats[i].1).value.1
  {
    seq(|stats|, i requires 0 <= i < |stats| =>
      var r := Reshape(stats[i].1); if r.None? then None else Some(r.value.1))
  }

  /** The dictionary tabulate builds: each series' reshaped rows stored under its table key. */
  function Tables<T(==)>(stats: seq<(string, seq<seq<T>>)>): Option<map<string, seq<map<T, T>>>>
  {
    Store(TableKeys(stats), Reshaped(stats))
  }

  /**
   * The tables fail exactly when some series cannot be reshaped; otherwise they hold one
   * entry per table key, and a series no later series shares a key with is stored as reshaped.
   */
  lemma TablesSpec<T>(stats: seq<(string, seq<seq<T>>)>)
    ensures Tables(stats).None? <==> exists i :: 0 <= i < |stats| && Reshape(stats[i].1).None?
    ensures Tables(stats).Some? ==> Tables(stats).value.Keys == set i | 0 <= i < |stats| :: TableKey(stats[i].0)
    ensures Tables(stats).Some? ==> forall i :: 0 <= i < |stats| && LastWithKey(stats, i) ==>
      TableKey(stats[i].0) in Tables(stats).value &&
      Tables(stats).value[TableKey(stats[i].0)] == Reshape(stats[i].1).value.1
  {
    var keys, vals := TableKeys(stats), Reshaped(stats);
    StoreFails(keys, vals);
    if Tables(stats).Some? {
      StoreKeys(keys, vals);
      assert (set i | 0 <= i < |keys| :: keys[i]) == set i | 0 <= i < |stats| :: TableKey(stats[i].0);
      forall i | 0 <= i < |stats| && LastWithKey(stats, i)
        ensures TableKey(stats[i].0) in Tables(stats).value
        ensures Tables(stats).value[TableKey(stats[i].0)] == Reshape(stats[i].1).value.1
      {
        StoreLast(keys, vals, i);
      }
    }
  }

  /**
   * tabulate's reshaping loop: every series' rows stored under its table key; None when
   * some series' statistics cannot be reshaped (the loop raises).
   */
  method Tabulate<T(==)>(stats: seq<(string, seq<seq<T>>)>) returns (items: Option<map<string, seq<map<T, T>>>>)
    ensures items == Tables(stats)
  {
    ghost var keys, vals := TableKeys(stats), Reshaped(stats);
    var acc: map<string, seq<map<T, T>>> := map[];
    var i := 0;
    while i < |stats|
      invariant 0 <= i <= |stats|
      invariant Store(keys[..i], vals[..i]) == Some(acc)
    {
      assert keys[..i + 1][..i] == keys[..i] && vals[..i + 1][..i] == vals[..i];
      var r := Reshape(stats[i].1);
      if r.None? {
        StoreFails(keys, vals);
        assert vals[i].None?;
        return None;
      }
      acc := acc[TableKey(stats[i].0) := r.value.1];
      i := i + 1;
    }
    assert keys[..i] == keys && vals[..i] == vals;
    items := Some(acc);
  }
}
