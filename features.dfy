/** `add_lag_and_rolling_mean`: adds to a frame, in place, the first
    column shifted by one month and the rolling mean of that shifted
    column. */
module Features {
  import opened Wrappers
  import opened Text
  import opened Frames

  /** `s.shift(n)`: every cell moves `n` rows down and the first `n` rows are NaN. */
  function Shift(s: seq<Cell>, n: nat): (r: seq<Cell>)
    ensures |r| == |s|
  {
    seq(|s|, t requires 0 <= t < |s| => if t < n then NaN else s[t - n])
  }

  predicate AllNum(s: seq<Cell>) {
    forall j :: 0 <= j < |s| ==> s[j].Num?
  }

  /** The sum of the numbers of `s`. */
  function Total(s: seq<Cell>): real {
    if s == [] then 0.0
    else Total(s[..|s| - 1]) + (if s[|s| - 1].Num? then s[|s| - 1].value else 0.0)
  }

  /** Row `t` of `s.rolling(window=w).mean()`: the mean of the `w` rows that
      end at `t`, NaN when there are fewer than `w` of them or one is NaN
      (the minimum number of observations defaults to the window). */
  function WindowMean(s: seq<Cell>, w: nat, t: nat): Cell
    requires t < |s|
  {
    if w == 0 || t + 1 < w then NaN
    else
      var window := s[t + 1 - w..t + 1];
      if AllNum(window) then Num(Total(window) / w as real) else NaN
  }

  function RollingMean(s: seq<Cell>, w: nat): (r: seq<Cell>)
    ensures |r| == |s|
  {
    seq(|s|, t requires 0 <= t < |s| => WindowMean(s, w, t))
  }

  /** `f'rolling_mean_{window}_lag_{i}'`. */
  function RollingName(w: nat, i: nat): string {
    "rolling_mean_" + DecimalString(w) + "_lag_" + DecimalString(i)
  }

  const LagName: string := "lag_1"

  /** The frame after `df['lag_1'] = df[first].shift(1)`. */
  function WithLag(t: Table): Table
    requires |t.names| == |t.columns| && |t.names| > 0
  {
    Assign(t, LagName, Shift(t.columns[0], 1))
  }

  /** The frame after the one pass of the `for` loop: the first column is
      looked up by name again, so when it is itself called `lag_1` the
      rolling mean is taken of the lagged column. */
  function WithRolling(t: Table, w: nat, i: nat): Table
    requires |t.names| == |t.columns| && |t.names| > 0
  {
    var t1 := WithLag(t);
    var v := Column(t1, t.names[0]);
    if v.Some? then Assign(t1, RollingName(w, i), RollingMean(Shift(v.value, i), w)) else t1
  }

  /** What `add_lag_and_rolling_mean(df, w)` leaves in a frame with at least one column. */
  function Features(t: Table, w: nat): Table
    requires |t.names| == |t.columns| && |t.names| > 0
  {
    WithRolling(t, w, 1)
  }

  /** The function itself, on a frame whose columns it rewrites. A frame
      without columns makes `df.columns[0]` raise `IndexError`. */
  method AddLagAndRollingMean(df: Frame, window: nat) returns (r: Result<Frame>)
    requires df.Valid()
    modifies df
    ensures old(df.names) == [] ==> r == Err(IndexError) && df.Contents() == old(df.Contents())
    ensures old(df.names) != [] ==> r == Ok(df) && df.Contents() == Features(old(df.Contents()), window)
    ensures df.index == old(df.index) && df.Valid()
  {
    if |df.names| == 0 {
      return Err(IndexError);
    }
    ghost var t := df.Contents();
    var columnName := df.names[0];
    var first := df.Get(columnName);
    assert first == Some(t.columns[0]);
    df.Set(LagName, Shift(first.value, 1));
    for i := 1 to 2
      invariant df.Valid() && df.index == old(df.index)
      invariant df.Contents() == if i == 1 then WithLag(t) else WithRolling(t, window, 1)
    {
      var source := df.Get(columnName);
      if source.Some? {
        LengthOfColumn(df.Contents(), IndexLength(df.index), columnName);
        df.Set(RollingName(window, i), RollingMean(Shift(source.value, i), window));
      }
    }
    return Ok(df);
  }

  lemma LengthOfColumn(t: Table, rows: nat, name: string)
    requires WellFormed(t, rows) && Column(t, name).Some?
    ensures |Column(t, name).value| == rows
  {
  }

  // Properties

  /** Row `t` of the rolling column is the mean of the `w` values of the
      first column just before `t`, and it exists exactly when `t >= w` and
      none of those values is NaN. */
  lemma LaggedMean(v: seq<Cell>, w: nat, t: nat)
    requires t < |v|
    ensures RollingMean(Shift(v, 1), w)[t]
      == if w >= 1 && t >= w && AllNum(v[t - w..t]) then Num(Total(v[t - w..t]) / w as real) else NaN
  {
    var s := Shift(v, 1);
    if w >= 1 && t + 1 >= w {
      var window := s[t + 1 - w..t + 1];
      if t >= w {
        assert window == v[t - w..t];
      } else {
        assert window[0] == NaN;
      }
    }
  }

  /** Row `t` of the lag column is the value one row earlier, NaN at the first row. */
  lemma LagCell(v: seq<Cell>, t: nat)
    requires t < |v|
    ensures Shift(v, 1)[t] == if t == 0 then NaN else v[t - 1]
  {
  }

  /** When the first column is not itself called `lag_1` or like the rolling
      column, it is left as it was, the two new columns are appended or
      written over, and every other column is untouched. */
  lemma FeaturesColumns(t: Table, rows: nat, w: nat, other: string)
    requires WellFormed(t, rows) && |t.names| > 0
    requires t.names[0] != LagName && t.names[0] != RollingName(w, 1)
    ensures WellFormed(Features(t, w), rows)
    ensures Column(Features(t, w), t.names[0]) == Some(t.columns[0])
    ensures Column(Features(t, w), LagName) == Some(Shift(t.columns[0], 1))
    ensures Column(Features(t, w), RollingName(w, 1)) == Some(RollingMean(Shift(t.columns[0], 1), w))
    ensures other != LagName && other != RollingName(w, 1) ==> Column(Features(t, w), other) == Column(t, other)
  {
    var v := t.columns[0];
    var t1 := WithLag(t);
    PositionOfDistinct(t.names, 0);
    AssignedWellFormed(t, rows, LagName, Shift(v, 1));
    AssignKeepsOthers(t, LagName, Shift(v, 1), t.names[0]);
    var r := RollingName(w, 1);
    AssignedWellFormed(t1, rows, r, RollingMean(Shift(v, 1), w));
    AssignKeepsOthers(t1, r, RollingMean(Shift(v, 1), w), t.names[0]);
    AssignKeepsOthers(t1, r, RollingMean(Shift(v, 1), w), LagName);
    if other != LagName && other != r {
      AssignKeepsOthers(t, LagName, Shift(v, 1), other);
      AssignKeepsOthers(t1, r, RollingMean(Shift(v, 1), w), other);
    }
  }

  /** The names of the frame afterwards: the old ones, then `lag_1` and the
      rolling column where they were not there yet. */
  lemma FeaturesNames(t: Table, w: nat)
    requires |t.names| == |t.columns| && |t.names| > 0
    ensures Features(t, w).names[..|t.names|] == t.names
    ensures forall n :: n in Features(t, w).names <==> n in t.names || n == LagName || n == RollingName(w, 1)
  {
    var t1 := WithLag(t);
    assert t.names[0] in t1.names;
    assert Column(t1, t.names[0]).Some?;
    assert Features(t, w) == Assign(t1, RollingName(w, 1), RollingMean(Shift(Column(t1, t.names[0]).value, 1), w));
    assert t1.names[..|t.names|] == t.names;
  }

  /** A first column called `lag_1` is overwritten by its own shift, and the
      rolling mean is then taken of the column shifted twice. */
  lemma FirstColumnNamedLag(t: Table, rows: nat, w: nat)
    requires WellFormed(t, rows) && |t.names| > 0 && t.names[0] == LagName
    ensures Column(Features(t, w), RollingName(w, 1)) == Some(RollingMean(Shift(Shift(t.columns[0], 1), 1), w))
  {
    PositionOfDistinct(t.names, 0);
  }
}
