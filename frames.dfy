/** The monthly series frames of the feature stage: a time index and named
    columns of cells that may be missing. */
module Frames {
  import opened Wrappers
  import opened Timestamps

  /** One cell of a float column: NaN, or a number (kept exact). */
  datatype Cell = NaN | Num(value: real)

  /** A `DatetimeIndex` (one date per row) or a monthly `PeriodIndex`, whose
      month `m` stands for the month `m % 12 + 1` of the year `m / 12`. */
  datatype Index = Stamps(dates: seq<Date>) | Periods(months: seq<int>)

  function IndexLength(index: Index): nat {
    match index
    case Stamps(dates) => |dates|
    case Periods(months) => |months|
  }

  /** The column names and the columns of a frame, as values. */
  datatype Table = Table(names: seq<string>, columns: seq<seq<Cell>>)

  /** Each name has one column of `rows` cells, and no name is repeated. */
  predicate WellFormed(t: Table, rows: nat) {
    |t.names| == |t.columns|
    && (forall c :: 0 <= c < |t.columns| ==> |t.columns[c]| == rows)
    && (forall c, d :: 0 <= c < d < |t.names| ==> t.names[c] != t.names[d])
  }

  /** The position of `name` among `names`. */
  function Position(names: seq<string>, name: string): (r: Option<nat>)
    ensures r.Some? ==> r.value < |names| && names[r.value] == name
    ensures r.None? <==> name !in names
  {
    if names == [] then None
    else if names[0] == name then Some(0)
    else match Position(names[1..], name)
      case None => None
      case Some(p) => Some(p + 1)
  }

  /** `df[name]`, or `None` where that raises `KeyError`. */
  function Column(t: Table, name: string): Option<seq<Cell>> {
    match Position(t.names, name)
    case None => None
    case Some(p) => if p < |t.columns| then Some(t.columns[p]) else None
  }

  lemma PositionOfDistinct(names: seq<string>, c: nat)
    requires c < |names|
    requires forall i, j :: 0 <= i < j < |names| ==> names[i] != names[j]
    ensures Position(names, names[c]) == Some(c)
  {
    var r := Position(names, names[c]);
    assert r.Some?;
  }

  /** `df[name] = col`: the column of that name is replaced, or, when there
      is none, a new column is appended. */
  function Assign(t: Table, name: string, col: seq<Cell>): (r: Table)
    requires |t.names| == |t.columns|
    ensures |r.names| == |r.columns|
    ensures r.names == if name in t.names then t.names else t.names + [name]
    ensures Column(r, name) == Some(col)
  {
    match Position(t.names, name)
    case Some(p) => Table(t.names, t.columns[p := col])
    case None =>
      var r := Table(t.names + [name], t.columns + [col]);
      assert Position(r.names, name).Some?;
      r
  }

  /** Assigning one column leaves every other column as it was. */
  lemma AssignKeepsOthers(t: Table, name: string, col: seq<Cell>, other: string)
    requires |t.names| == |t.columns| && other != name
    ensures Column(Assign(t, name, col), other) == Column(t, other)
  {
    if name !in t.names {
      PositionAppend(t.names, name, other);
      assert Assign(t, name, col) == Table(t.names + [name], t.columns + [col]);
    }
  }

  /** Appending a name does not move the others. */
  lemma {:induction false} PositionAppend(names: seq<string>, name: string, other: string)
    requires other != name
    ensures Position(names + [name], other) == Position(names, other)
  {
    if names != [] {
      assert (names + [name])[1..] == names[1..] + [name];
      PositionAppend(names[1..], name, other);
    } else {
      assert Position([name][1..], other) == None;
    }
  }

  /** A frame whose index and columns the script rewrites in place. */
  class Frame {
    var index: Index
    var names: seq<string>
    var columns: seq<seq<Cell>>

    ghost predicate Valid()
      reads this
    {
      WellFormed(Table(names, columns), IndexLength(index))
    }

    function Contents(): Table
      reads this
    {
      Table(names, columns)
    }

    constructor (index: Index, names: seq<string>, columns: seq<seq<Cell>>)
      ensures this.index == index && this.names == names && this.columns == columns
    {
      this.index := index;
      this.names := names;
      this.columns := columns;
    }

    /** `df[name]`, read from the current columns. */
    method Get(name: string) returns (r: Option<seq<Cell>>)
      ensures r == Column(Contents(), name)
    {
      var p := Position(names, name);
      if p.Some? && p.value < |columns| {
        r := Some(columns[p.value]);
      } else {
        r := None;
      }
    }

    /** `df[name] = col`. */
    method Set(name: string, col: seq<Cell>)
      requires Valid() && |col| == IndexLength(index)
      modifies this
      ensures Contents() == Assign(old(Contents()), name, col)
      ensures index == old(index)
      ensures Valid()
    {
      var p := Position(names, name);
      if p.Some? {
        columns := columns[p.value := col];
      } else {
        names := names + [name];
        columns := columns + [col];
      }
      AssignedWellFormed(old(Contents()), IndexLength(index), name, col);
    }
  }

  /** Assigning a column of the right length keeps a frame well formed. */
  lemma AssignedWellFormed(t: Table, rows: nat, name: string, col: seq<Cell>)
    requires WellFormed(t, rows) && |col| == rows
    ensures WellFormed(Assign(t, name, col), rows)
  {
    var r := Assign(t, name, col);
    if name !in t.names {
      forall c, d | 0 <= c < d < |r.names| ensures r.names[c] != r.names[d] {
        if d == |t.names| {
          assert r.names[c] == t.names[c];
        }
      }
    }
  }
}
