/** `find_nearest_coordinates` and `add_nearest_coordinates_column`: for
    each station of interest, the numbers of the `k` nearest stations of
    another network, merged into a table as one list column. */
module Nearest {
  import opened Wrappers
  import opened Stations

  /** The square of the Euclidean distance. The square root is increasing,
      so it orders the rows exactly as the distance does, ties included. */
  function SquaredDistance(a: Station, b: Station): real {
    (a.x - b.x) * (a.x - b.x) + (a.y - b.y) * (a.y - b.y)
  }

  /** `df.apply(lambda row: calculate_distance(...), axis=1)` */
  function Distances(target: Station, candidates: seq<Station>): (ds: seq<real>)
    ensures |ds| == |candidates|
  {
    seq(|candidates|, i requires 0 <= i < |candidates| => SquaredDistance(target, candidates[i]))
  }

  /** Row `i` comes before row `j` in `nsmallest(k)` (whose `keep='first'`
      puts the earlier of two equal distances first). */
  predicate Before(ds: seq<real>, i: nat, j: nat)
    requires i < |ds| && j < |ds|
  {
    ds[i] < ds[j] || (ds[i] == ds[j] && i < j)
  }

  /** `order` lists rows of `ds` in strictly increasing `Before` order, so
      without repetition. */
  predicate Ranked(ds: seq<real>, order: seq<nat>) {
    (forall a :: 0 <= a < |order| ==> order[a] < |ds|)
    && (forall a, b :: 0 <= a < b < |order| ==> Before(ds, order[a], order[b]))
  }

  lemma BeforeTransitive(ds: seq<real>, i: nat, j: nat, l: nat)
    requires i < |ds| && j < |ds| && l < |ds|
    requires Before(ds, i, j) && Before(ds, j, l)
    ensures Before(ds, i, l)
  {
  }

  /** Puts row `j`, later than every row of `order`, in its place. */
  function Insert(ds: seq<real>, order: seq<nat>, j: nat): (r: seq<nat>)
    requires j < |ds| && Ranked(ds, order)
    requires forall a :: 0 <= a < |order| ==> order[a] < j
    ensures |r| == |order| + 1 && Ranked(ds, r)
    ensures forall x :: x in r <==> x in order || x == j
  {
    if order == [] then [j]
    else if ds[j] < ds[order[0]] then
      var r := [j] + order;
      forall a, b | 0 <= a < b < |r| ensures Before(ds, r[a], r[b]) {
        if a == 0 && b > 1 {
          BeforeTransitive(ds, j, order[0], order[b - 1]);
        }
      }
      r
    else
      var rest := Insert(ds, order[1..], j);
      var r := [order[0]] + rest;
      forall b | 0 <= b < |rest| ensures Before(ds, order[0], rest[b]) {
        assert rest[b] in order[1..] || rest[b] == j;
        if rest[b] != j {
          var c :| 0 <= c < |order[1..]| && order[1..][c] == rest[b];
          assert order[c + 1] == rest[b];
        }
      }
      assert forall x :: x in order <==> x == order[0] || x in order[1..];
      r
  }

  /** All rows of `ds` up to `n`, in `Before` order. */
  function Ranking(ds: seq<real>, n: nat): (r: seq<nat>)
    requires n <= |ds|
    ensures |r| == n && Ranked(ds, r)
    ensures forall x :: x in r <==> 0 <= x < n
  {
    if n == 0 then []
    else
      var prev := Ranking(ds, n - 1);
      assert forall a :: 0 <= a < |prev| ==> prev[a] in prev;
      Insert(ds, prev, n - 1)
  }

  function Min(a: nat, b: nat): nat {
    if a <= b then a else b
  }

  /** `distances.nsmallest(k).index`: the rows of the `k` smallest distances
      (all rows when there are fewer), nearest first and the earlier row
      first among equal distances. Every row left out is farther than, or as
      far as and later than, every row taken. */
  function NearestRows(ds: seq<real>, k: nat): (r: seq<nat>)
    ensures |r| == Min(k, |ds|) && Ranked(ds, r)
    ensures forall a, j :: 0 <= a < |r| && 0 <= j < |ds| && j !in r ==> Before(ds, r[a], j)
  {
    var all := Ranking(ds, |ds|);
    var r := all[..Min(k, |ds|)];
    forall a, j | 0 <= a < |r| && 0 <= j < |ds| && j !in r ensures Before(ds, r[a], j) {
      assert j in all;
      var b :| 0 <= b < |all| && all[b] == j;
      assert b >= |r|;
    }
    r
  }

  /** `find_nearest_coordinates(gw_row, df, k)`: `df.loc` of those rows. */
  function FindNearest(target: Station, candidates: seq<Station>, k: nat): (rows: seq<Station>)
    ensures |rows| == Min(k, |candidates|)
    ensures forall i :: 0 <= i < |rows| ==> rows[i] == candidates[NearestRows(Distances(target, candidates), k)[i]]
  {
    var r := NearestRows(Distances(target, candidates), k);
    seq(|r|, i requires 0 <= i < |r| => candidates[r[i]])
  }

  /** `nearest['hzbnr01'].tolist()` */
  function Ids(rows: seq<Station>): (ids: seq<int>)
    ensures |ids| == |rows|
  {
    seq(|rows|, i requires 0 <= i < |rows| => rows[i].id)
  }

  /** The returned rows are sorted by distance, and none is farther than a
      row that was not returned. */
  lemma NearestOrder(target: Station, candidates: seq<Station>, k: nat)
    ensures forall a, b :: 0 <= a < b < |FindNearest(target, candidates, k)| ==>
      SquaredDistance(target, FindNearest(target, candidates, k)[a]) <= SquaredDistance(target, FindNearest(target, candidates, k)[b])
    ensures forall a, j ::
      (0 <= a < |FindNearest(target, candidates, k)| && 0 <= j < |candidates|
       && j !in NearestRows(Distances(target, candidates), k)) ==>
      SquaredDistance(target, FindNearest(target, candidates, k)[a]) <= SquaredDistance(target, candidates[j])
  {
    var ds := Distances(target, candidates);
    var r := NearestRows(ds, k);
    var rows := FindNearest(target, candidates, k);
    forall a, b | 0 <= a < b < |rows| ensures SquaredDistance(target, rows[a]) <= SquaredDistance(target, rows[b]) {
      assert Before(ds, r[a], r[b]);
    }
    forall a, j | 0 <= a < |rows| && 0 <= j < |candidates| && j !in r
      ensures SquaredDistance(target, rows[a]) <= SquaredDistance(target, candidates[j])
    {
      assert Before(ds, r[a], j);
    }
  }

  /** Among rows at equal distance, the earlier one is returned first, and a
      row left out while an equally distant one is returned comes later. */
  lemma NearestTies(ds: seq<real>, k: nat, a: nat, j: nat)
    requires a < |NearestRows(ds, k)| && j < |ds| && ds[NearestRows(ds, k)[a]] == ds[j]
    requires j !in NearestRows(ds, k)
    ensures NearestRows(ds, k)[a] < j
  {
  }

  // The merge

  /** The column the script merges on. */
  const IdColumn: string := "hzbnr01"

  /** A row of the table that collects the features: its station number,
      and the neighbour lists added so far, by column name. */
  datatype Record = Record(id: int, lists: map<string, seq<int>>)

  /** The table passed as `df_to_merge`; `hasId` says whether it has an
      `hzbnr01` column. */
  datatype Table = Table(hasId: bool, rows: seq<Record>)

  /** `results`: one `(hzbnr01, list)` pair per station of interest, in order. */
  function NeighbourLists(targets: seq<Station>, candidates: seq<Station>, k: nat): (r: seq<(int, seq<int>)>)
    ensures |r| == |targets|
    ensures forall i :: 0 <= i < |targets| ==> r[i].0 == targets[i].id && r[i].1 == Ids(FindNearest(targets[i], candidates, k))
  {
    seq(|targets|, i requires 0 <= i < |targets| => (targets[i].id, Ids(FindNearest(targets[i], candidates, k))))
  }

  /** A left row joined with a list: a column of the same name that the row
      already has is renamed with the suffix `_x`, the new one gets `_y`. */
  function Joined(left: Record, name: string, list: seq<int>): Record {
    if name in left.lists then
      Record(left.id, (left.lists - {name})[name + "_x" := left.lists[name]][name + "_y" := list])
    else
      Record(left.id, left.lists[name := list])
  }

  /** The rows of a merge for one left row: one per result with its number, in order. */
  function MatchesOf(left: Record, results: seq<(int, seq<int>)>, name: string): seq<Record> {
    if results == [] then []
    else
      var here := if results[0].0 == left.id then [Joined(left, name, results[0].1)] else [];
      here + MatchesOf(left, results[1..], name)
  }

  /** `df_to_merge.merge(results_df, on='hzbnr01', how='inner')`: the left
      rows in order, each followed by its matches in result order. */
  function InnerMerge(left: seq<Record>, results: seq<(int, seq<int>)>, name: string): seq<Record> {
    if left == [] then [] else MatchesOf(left[0], results, name) + InnerMerge(left[1..], results, name)
  }

  /** The function itself, with `toAdd` as `df_to_add`. Without stations of
      interest `results_df` has no columns, and then, as when `df_to_merge`
      lacks `hzbnr01`, it raises `KeyError`.
      - A `df_to_add` without any columns makes the first call of
        `find_nearest_coordinates` raise `TypeError`: `apply` on it gives
        back an empty frame, and a frame's `nsmallest` needs `columns`.
      - A new column named `hzbnr01` overwrites the number in each result
        (the later key of the dict literal wins), so `results_df` holds one
        column of lists under that name. Pandas refuses to merge the
        integer key of a table that has rows with it and raises
        `ValueError`; a table without rows merges to no rows. */
  method AddNearestCoordinatesColumn(toAdd: Coordinates, name: string, k: nat, toMerge: Table, targets: seq<Station>)
    returns (r: Result<seq<Record>>)
    ensures targets != [] && toAdd.Columnless? ==> r == Err(TypeError)
    ensures targets == [] || (toAdd.Rows? && !toMerge.hasId) ==> r == Err(KeyError)
    ensures targets != [] && toAdd.Rows? && toMerge.hasId && name == IdColumn && toMerge.rows != [] ==> r == Err(ValueError)
    ensures targets != [] && toAdd.Rows? && toMerge.hasId && (name != IdColumn || toMerge.rows == []) ==>
      r == Ok(InnerMerge(toMerge.rows, NeighbourLists(targets, toAdd.stations, k), name))
  {
    if targets != [] && toAdd.Columnless? {
      return Err(TypeError);
    }
    var candidates := if toAdd.Rows? then toAdd.stations else [];
    var results: seq<(int, seq<int>)> := [];
    for i := 0 to |targets|
      invariant results == NeighbourLists(targets, candidates, k)[..i]
    {
      var nearest := FindNearest(targets[i], candidates, k);
      results := results + [(targets[i].id, Ids(nearest))];
    }
    assert results == NeighbourLists(targets, candidates, k);
    if !(toMerge.hasId && |results| > 0) {
      return Err(KeyError);
    }
    if name == IdColumn && toMerge.rows != [] {
      return Err(ValueError);
    }
    return Ok(InnerMerge(toMerge.rows, results, name));
  }

  // Properties of the merge

  /** `rec` is result `b` joined to a left row of the same number. */
  predicate MatchedBy(left: Record, results: seq<(int, seq<int>)>, name: string, rec: Record, b: int) {
    0 <= b < |results| && results[b].0 == left.id && rec == Joined(left, name, results[b].1)
  }

  lemma {:induction false} MatchesOfMembers(left: Record, results: seq<(int, seq<int>)>, name: string, rec: Record)
    ensures rec in MatchesOf(left, results, name) <==> exists b :: MatchedBy(left, results, name, rec, b)
  {
    if results != [] {
      MatchesOfMembers(left, results[1..], name, rec);
      if exists b :: MatchedBy(left, results, name, rec, b) {
        var b :| MatchedBy(left, results, name, rec, b);
        if b > 0 {
          assert MatchedBy(left, results[1..], name, rec, b - 1);
        }
      }
      if exists b :: MatchedBy(left, results[1..], name, rec, b) {
        var b :| MatchedBy(left, results[1..], name, rec, b);
        assert MatchedBy(left, results, name, rec, b + 1);
      }
      if results[0].0 == left.id && rec == Joined(left, name, results[0].1) {
        assert MatchedBy(left, results, name, rec, 0);
      }
    }
  }

  /** `rec` is left row `a` joined with result `b`, of the same number. */
  predicate MergedFrom(left: seq<Record>, results: seq<(int, seq<int>)>, name: string, rec: Record, a: int, b: int) {
    0 <= a < |left| && MatchedBy(left[a], results, name, rec, b)
  }

  /** Every merged row is a left row joined with the list of a result of
      the same number, and every such pair gives a merged row. */
  lemma {:induction false} InnerMergeMembers(left: seq<Record>, results: seq<(int, seq<int>)>, name: string, rec: Record)
    ensures rec in InnerMerge(left, results, name) <==> exists a, b :: MergedFrom(left, results, name, rec, a, b)
  {
    if left != [] {
      InnerMergeMembers(left[1..], results, name, rec);
      MatchesOfMembers(left[0], results, name, rec);
      if exists a, b :: MergedFrom(left, results, name, rec, a, b) {
        var a, b :| MergedFrom(left, results, name, rec, a, b);
        if a > 0 {
          assert MergedFrom(left[1..], results, name, rec, a - 1, b);
        } else {
          assert MatchedBy(left[0], results, name, rec, b);
        }
      }
      if exists a, b :: MergedFrom(left[1..], results, name, rec, a, b) {
        var a, b :| MergedFrom(left[1..], results, name, rec, a, b);
        assert MergedFrom(left, results, name, rec, a + 1, b);
      }
      if rec in MatchesOf(left[0], results, name) {
        var b :| MatchedBy(left[0], results, name, rec, b);
        assert MergedFrom(left, results, name, rec, 0, b);
      }
    }
  }

  /** A left row whose number has exactly one result gets exactly one merged row. */
  lemma {:induction false} MatchesOfUnique(left: Record, results: seq<(int, seq<int>)>, name: string, b: nat)
    requires b < |results| && results[b].0 == left.id
    requires forall c :: 0 <= c < |results| && c != b ==> results[c].0 != left.id
    ensures MatchesOf(left, results, name) == [Joined(left, name, results[b].1)]
  {
    if b == 0 {
      MatchesOfNone(left, results[1..], name);
    } else {
      MatchesOfUnique(left, results[1..], name, b - 1);
    }
  }

  lemma {:induction false} MatchesOfNone(left: Record, results: seq<(int, seq<int>)>, name: string)
    requires forall c :: 0 <= c < |results| ==> results[c].0 != left.id
    ensures MatchesOf(left, results, name) == []
  {
    if results != [] {
      MatchesOfNone(left, results[1..], name);
    }
  }

  /** When every left row's number has exactly one result, as when the
      stations of interest are the left rows with distinct numbers, the
      merge keeps the left rows in order and adds each its own list. */
  lemma {:induction false} InnerMergeOneEach(left: seq<Record>, results: seq<(int, seq<int>)>, name: string, pick: seq<nat>)
    requires |pick| == |left|
    requires forall a :: 0 <= a < |left| ==> pick[a] < |results| && results[pick[a]].0 == left[a].id
    requires forall a, c :: 0 <= a < |left| && 0 <= c < |results| && c != pick[a] ==> results[c].0 != left[a].id
    ensures |InnerMerge(left, results, name)| == |left|
    ensures forall a :: 0 <= a < |left| ==> InnerMerge(left, results, name)[a] == Joined(left[a], name, results[pick[a]].1)
  {
    if left != [] {
      MatchesOfUnique(left[0], results, name, pick[0]);
      InnerMergeOneEach(left[1..], results, name, pick[1..]);
      var rest := InnerMerge(left[1..], results, name);
      forall a | 0 <= a < |left| ensures InnerMerge(left, results, name)[a] == Joined(left[a], name, results[pick[a]].1) {
        if a > 0 {
          assert InnerMerge(left, results, name)[a] == rest[a - 1];
        }
      }
    }
  }

  /** A new list column never overwrites an earlier one: the old columns
      keep their lists, under a suffixed name on a clash. */
  lemma JoinedKeepsLists(left: Record, name: string, list: seq<int>, other: string)
    requires other in left.lists && other != name
    requires other != name + "_x" && other != name + "_y"
    ensures other in Joined(left, name, list).lists && Joined(left, name, list).lists[other] == left.lists[other]
  {
  }
}
