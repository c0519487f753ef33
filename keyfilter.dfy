/** `filter_dataframes_by_points`: keeps the series of the stations whose
    names are in a list of requested points. */
module KeyFilter {

  /** `{name: df for name, df in dataframes_dict.items() if name in points_list}` */
  function FilterByPoints<V>(series: map<string, V>, points: seq<string>): (r: map<string, V>)
    ensures forall name :: name in r <==> name in series && name in points
    ensures forall name :: name in r ==> r[name] == series[name]
  {
    map name | name in series && name in points :: series[name]
  }

  /** Filtering again by the same points changes nothing. */
  lemma FilterIdempotent<V>(series: map<string, V>, points: seq<string>)
    ensures FilterByPoints(FilterByPoints(series, points), points) == FilterByPoints(series, points)
  {
    var once := FilterByPoints(series, points);
    assert FilterByPoints(once, points).Keys == once.Keys;
  }

  /** The result is a sub-dictionary: no key is added and no value changed. */
  lemma FilterSubmap<V>(series: map<string, V>, points: seq<string>)
    ensures FilterByPoints(series, points).Keys <= series.Keys
    ensures forall name :: name in FilterByPoints(series, points) ==> FilterByPoints(series, points)[name] == series[name]
  {
  }

  /** Only the set of requested names matters, not their order or repetition. */
  lemma FilterBySetOfPoints<V>(series: map<string, V>, points: seq<string>, others: seq<string>)
    requires forall name :: name in points <==> name in others
    ensures FilterByPoints(series, points) == FilterByPoints(series, others)
  {
    assert FilterByPoints(series, points).Keys == FilterByPoints(series, others).Keys;
  }

  /** Filtering by two lists one after the other is filtering by the names
      they have in common. */
  lemma FilterTwice<V>(series: map<string, V>, points: seq<string>, others: seq<string>, common: seq<string>)
    requires forall name :: name in common <==> name in points && name in others
    ensures FilterByPoints(FilterByPoints(series, points), others) == FilterByPoints(series, common)
  {
    assert FilterByPoints(FilterByPoints(series, points), others).Keys == FilterByPoints(series, common).Keys;
  }

  /** Requesting every station keeps the whole dictionary. */
  lemma FilterAll<V>(series: map<string, V>, points: seq<string>)
    requires forall name :: name in series ==> name in points
    ensures FilterByPoints(series, points) == series
  {
    assert FilterByPoints(series, points).Keys == series.Keys;
  }
}
