/** `zero_padding`: puts a monthly frame on the calendar of every month from
    a start month to the frame's last month, with 0 where a month has no
    row or a value is NaN. */
module Padding {
  import opened Wrappers
  import opened Timestamps
  import opened Frames

  /** The period of the month of `d` (`to_period('M')`), counted in months
      from January of the year 0. */
  function MonthOf(d: Date): int {
    d.year * 12 + d.month - 1
  }

  /** `to_timestamp()` of a monthly period: the first day of that month. */
  function MonthStart(m: int): Date {
    Date(m / 12, m % 12 + 1, 1)
  }

  lemma MonthStartOf(d: Date)
    requires 1 <= d.month <= 12
    ensures MonthStart(MonthOf(d)) == Date(d.year, d.month, 1)
  {
  }

  /** The index as monthly periods: `to_period('M')` unless it already is a `PeriodIndex`. */
  function PeriodMonths(index: Index): (months: seq<int>)
    ensures |months| == IndexLength(index)
  {
    match index
    case Periods(months) => months
    case Stamps(dates) => seq(|dates|, i requires 0 <= i < |dates| => MonthOf(dates[i]))
  }

  /** `df.index.max()` */
  function MaxOf(s: seq<int>): (m: int)
    requires s != []
    ensures m in s && forall i :: 0 <= i < |s| ==> s[i] <= m
  {
    if |s| == 1 then s[0]
    else
      var m := MaxOf(s[..|s| - 1]);
      assert s[..|s| - 1][|s| - 2] == s[|s| - 2];
      if s[|s| - 1] > m then s[|s| - 1] else m
  }

  /** The rows of the frame whose month is `m`, in order. */
  function Positions(months: seq<int>, m: int): (r: seq<nat>)
    ensures forall k :: 0 <= k < |r| ==> r[k] < |months| && months[r[k]] == m
    ensures forall p :: 0 <= p < |months| && months[p] == m ==> p in r
    ensures forall k, l :: 0 <= k < l < |r| ==> r[k] < r[l]
  {
    if months == [] then []
    else
      var n := |months| - 1;
      var init := months[..n];
      var r := Positions(init, m);
      var out := r + if months[n] == m then [n] else [];
      forall p | 0 <= p < |months| && months[p] == m ensures p in out {
        if p < n {
          assert init[p] == months[p];
        } else {
          assert out[|out| - 1] == p;
        }
      }
      forall k | 0 <= k < |out| ensures out[k] < |months| && months[out[k]] == m {
        if k < |r| {
          assert out[k] == r[k] && init[r[k]] == months[r[k]];
        }
      }
      out
  }

  /** One output row of the left join: its month, and the input row it
      takes its values from, if there is one. */
  datatype Slot = Slot(month: int, source: Option<nat>)

  /** The output rows for month `m`: one per input row of that month, in
      input order, or a single row without a source. */
  function MonthSlots(months: seq<int>, m: int): (r: seq<Slot>)
    ensures |r| >= 1
    ensures forall i :: 0 <= i < |r| ==> r[i].month == m
    ensures forall i :: 0 <= i < |r| && r[i].source.Some? ==> r[i].source.value < |months| && months[r[i].source.value] == m
  {
    var ps := Positions(months, m);
    if ps == [] then [Slot(m, None)] else seq(|ps|, k requires 0 <= k < |ps| => Slot(m, Some(ps[k])))
  }

  /** `DataFrame(index=period_range(lo, hi)).join(df, how='left')`: for
      every month from `lo` to `hi`, in order, the rows of that month. */
  function JoinPlan(months: seq<int>, lo: int, hi: int): (plan: seq<Slot>)
    ensures forall i :: 0 <= i < |plan| ==> lo <= plan[i].month <= hi
    ensures forall i :: 0 <= i < |plan| && plan[i].source.Some? ==>
      plan[i].source.value < |months| && months[plan[i].source.value] == plan[i].month
    decreases hi + 1 - lo
  {
    if hi < lo then [] else MonthSlots(months, lo) + JoinPlan(months, lo + 1, hi)
  }

  /** `fillna(0)` */
  function Fill(c: Cell): Cell {
    if c.NaN? then Num(0.0) else c
  }

  function PadColumn(col: seq<Cell>, plan: seq<Slot>): (r: seq<Cell>)
    requires forall i :: 0 <= i < |plan| && plan[i].source.Some? ==> plan[i].source.value < |col|
    ensures |r| == |plan|
  {
    seq(|plan|, i requires 0 <= i < |plan| =>
      match plan[i].source
      case None => Num(0.0)
      case Some(p) => Fill(col[p]))
  }

  /** The columns of the joined and filled frame. */
  function Padded(t: Table, rows: nat, plan: seq<Slot>): (r: Table)
    requires WellFormed(t, rows)
    requires forall i :: 0 <= i < |plan| && plan[i].source.Some? ==> plan[i].source.value < rows
    ensures WellFormed(r, |plan|)
  {
    var r := Table(t.names, seq(|t.columns|, c requires 0 <= c < |t.columns| => PadColumn(t.columns[c], plan)));
    assert forall c :: 0 <= c < |r.columns| ==> |r.columns[c]| == |plan|;
    r
  }

  /** The function itself. It first rewrites the caller's index to periods
      (line 599 assigns `df.index`), then builds a new frame. An empty index
      has no maximum, and `period_range` then raises `ValueError`. */
  method ZeroPadding(df: Frame, start: Date) returns (r: Result<Frame>)
    requires df.Valid()
    modifies df
    ensures df.index == Periods(PeriodMonths(old(df.index)))
    ensures df.Contents() == old(df.Contents()) && df.Valid()
    ensures IndexLength(df.index) == 0 ==> r == Err(ValueError)
    ensures IndexLength(df.index) > 0 ==>
      r.Ok? && fresh(r.value) && r.value.Valid()
      && r.value.index == Stamps(Calendar(JoinPlan(df.index.months, MonthOf(start), MaxOf(df.index.months))))
      && r.value.Contents() == Padded(df.Contents(), |df.index.months|, JoinPlan(df.index.months, MonthOf(start), MaxOf(df.index.months)))
  {
    if !df.index.Periods? {
      df.index := Periods(PeriodMonths(df.index));
    }
    var months := df.index.months;
    if |months| == 0 {
      return Err(ValueError);
    }
    var plan := JoinPlan(months, MonthOf(start), MaxOf(months));
    var table := Padded(df.Contents(), |months|, plan);
    var padded := new Frame(Stamps(Calendar(plan)), table.names, table.columns);
    return Ok(padded);
  }

  /** The new index: the first day of each output row's month. */
  function Calendar(plan: seq<Slot>): (dates: seq<Date>)
    ensures |dates| == |plan|
  {
    seq(|plan|, i requires 0 <= i < |plan| => MonthStart(plan[i].month))
  }

  // Properties

  /** No cell of the result is NaN; a number of the input is kept, and a
      missing month or a NaN becomes 0. */
  lemma PaddedCells(col: seq<Cell>, plan: seq<Slot>, i: nat)
    requires forall j :: 0 <= j < |plan| && plan[j].source.Some? ==> plan[j].source.value < |col|
    requires i < |plan|
    ensures PadColumn(col, plan)[i].Num?
    ensures PadColumn(col, plan)[i] == match plan[i].source
      case None => Num(0.0)
      case Some(p) => if col[p].Num? then col[p] else Num(0.0)
  {
  }

  /** Every input row of a month from `lo` to `hi` becomes an output row. */
  lemma {:induction false} RowKept(months: seq<int>, lo: int, hi: int, p: nat)
    requires p < |months| && lo <= months[p] <= hi
    ensures exists i :: 0 <= i < |JoinPlan(months, lo, hi)| && JoinPlan(months, lo, hi)[i].source == Some(p)
    decreases hi + 1 - lo
  {
    var first := MonthSlots(months, lo);
    var plan := JoinPlan(months, lo, hi);
    assert plan == first + JoinPlan(months, lo + 1, hi);
    if months[p] == lo {
      var ps := Positions(months, lo);
      var k :| 0 <= k < |ps| && ps[k] == p;
      assert plan[k] == first[k];
    } else {
      RowKept(months, lo + 1, hi, p);
      var rest := JoinPlan(months, lo + 1, hi);
      var i :| 0 <= i < |rest| && rest[i].source == Some(p);
      assert plan[|first| + i] == rest[i];
    }
  }

  /** Every month from `lo` to `hi` has an output row. */
  lemma {:induction false} MonthPresent(months: seq<int>, lo: int, hi: int, m: int)
    requires lo <= m <= hi
    ensures exists i :: 0 <= i < |JoinPlan(months, lo, hi)| && JoinPlan(months, lo, hi)[i].month == m
    decreases hi + 1 - lo
  {
    var first := MonthSlots(months, lo);
    var plan := JoinPlan(months, lo, hi);
    var rest := JoinPlan(months, lo + 1, hi);
    assert plan == first + rest;
    if m == lo {
      assert plan[0] == first[0];
    } else {
      MonthPresent(months, lo + 1, hi, m);
      var i :| 0 <= i < |rest| && rest[i].month == m;
      assert plan[|first| + i] == rest[i];
    }
  }

  /** An output row without a source stands for a month with no input row. */
  lemma {:induction false} SourcelessMeansMissing(months: seq<int>, lo: int, hi: int, i: nat)
    requires i < |JoinPlan(months, lo, hi)| && JoinPlan(months, lo, hi)[i].source.None?
    ensures JoinPlan(months, lo, hi)[i].month !in months
    decreases hi + 1 - lo
  {
    var first := MonthSlots(months, lo);
    var plan := JoinPlan(months, lo, hi);
    assert plan == first + JoinPlan(months, lo + 1, hi);
    if i < |first| {
      assert plan[i] == first[i];
    } else {
      assert plan[i] == JoinPlan(months, lo + 1, hi)[i - |first|];
      SourcelessMeansMissing(months, lo + 1, hi, i - |first|);
    }
  }

  /** An output row has a source exactly when its month occurs in the input. */
  lemma SourceIffPresent(months: seq<int>, lo: int, hi: int, i: nat)
    requires i < |JoinPlan(months, lo, hi)|
    ensures JoinPlan(months, lo, hi)[i].source.Some? <==> JoinPlan(months, lo, hi)[i].month in months
  {
    if JoinPlan(months, lo, hi)[i].source.None? {
      SourcelessMeansMissing(months, lo, hi, i);
    }
  }

  /** With the last month as the end of the calendar (`df.index.max()`),
      exactly the rows before `lo` are dropped by the left join. */
  lemma DroppedBeforeStart(months: seq<int>, lo: int, p: nat)
    requires p < |months|
    ensures (exists i :: 0 <= i < |JoinPlan(months, lo, MaxOf(months))| && JoinPlan(months, lo, MaxOf(months))[i].source == Some(p))
      <==> months[p] >= lo
  {
    var hi := MaxOf(months);
    var plan := JoinPlan(months, lo, hi);
    if months[p] >= lo {
      assert months[p] <= hi;
      RowKept(months, lo, hi, p);
      var i :| 0 <= i < |plan| && plan[i].source == Some(p);
      assert 0 <= i < |JoinPlan(months, lo, MaxOf(months))| && JoinPlan(months, lo, MaxOf(months))[i].source == Some(p);
    } else {
      forall i | 0 <= i < |plan| ensures plan[i].source != Some(p) {
        assert lo <= plan[i].month;
      }
    }
  }

  /** The output months ascend. */
  lemma {:induction false} PlanAscending(months: seq<int>, lo: int, hi: int)
    ensures forall i, j :: 0 <= i < j < |JoinPlan(months, lo, hi)| ==>
      JoinPlan(months, lo, hi)[i].month <= JoinPlan(months, lo, hi)[j].month
    decreases hi + 1 - lo
  {
    if lo <= hi {
      PlanAscending(months, lo + 1, hi);
      var first := MonthSlots(months, lo);
      var rest := JoinPlan(months, lo + 1, hi);
      assert JoinPlan(months, lo, hi) == first + rest;
      AscendingAppend(first, rest, lo);
    }
  }

  /** The slots of one month followed by ascending slots of later months ascend. */
  lemma AscendingAppend(first: seq<Slot>, rest: seq<Slot>, m: int)
    requires forall i :: 0 <= i < |first| ==> first[i].month == m
    requires forall i :: 0 <= i < |rest| ==> m < rest[i].month
    requires forall i, j :: 0 <= i < j < |rest| ==> rest[i].month <= rest[j].month
    ensures forall i, j :: 0 <= i < j < |first + rest| ==> (first + rest)[i].month <= (first + rest)[j].month
  {
    var plan := first + rest;
    forall i, j | 0 <= i < j < |plan| ensures plan[i].month <= plan[j].month {
      if j >= |first| {
        assert plan[j] == rest[j - |first|];
        if i >= |first| {
          assert plan[i] == rest[i - |first|];
        }
      }
    }
  }

  lemma PositionsPair(months: seq<int>, m: int)
    ensures |Positions(months, m)| >= 2 ==>
      Positions(months, m)[0] < Positions(months, m)[1]
      && months[Positions(months, m)[0]] == m && months[Positions(months, m)[1]] == m
  {
  }

  predicate Distinct(months: seq<int>) {
    forall p, q :: 0 <= p < q < |months| ==> months[p] != months[q]
  }

  /** Without repeated months the result has one row per month from `lo` to
      `hi`, in order: a contiguous calendar without duplicates. */
  lemma {:induction false} DistinctCalendar(months: seq<int>, lo: int, hi: int)
    requires Distinct(months) && lo <= hi + 1
    ensures |JoinPlan(months, lo, hi)| == hi + 1 - lo
    ensures forall i :: 0 <= i < |JoinPlan(months, lo, hi)| ==> JoinPlan(months, lo, hi)[i].month == lo + i
    decreases hi + 1 - lo
  {
    if lo <= hi {
      OneSlotPerMonth(months, lo);
      DistinctCalendar(months, lo + 1, hi);
      var plan := JoinPlan(months, lo, hi);
      var rest := JoinPlan(months, lo + 1, hi);
      assert plan == MonthSlots(months, lo) + rest;
      forall i | 0 <= i < |plan| ensures plan[i].month == lo + i {
        if i > 0 {
          assert plan[i] == rest[i - 1];
        }
      }
    }
  }

  /** Without repeated months each month gets exactly one output row. */
  lemma OneSlotPerMonth(months: seq<int>, m: int)
    requires Distinct(months)
    ensures |MonthSlots(months, m)| == 1
  {
    PositionsPair(months, m);
  }
}
