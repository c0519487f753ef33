/** `to_dataframe`: reads the "Werte:" section of every station file of a
    folder into one series per station, and collects the coordinates of the
    stations that were read. */
module Werte {
  import opened Wrappers
  import opened Text
  import opened Timestamps
  import opened Numbers
  import opened Stations

  /** The gap marker, as the Latin-1 files spell it. */
  const GapMarker: string := "L\U{FC}cke"
  /** The note that marks a reconstructed value. */
  const Reconstructed: string := "rekonstruiert aus Version 3->"

  datatype Row = Row(date: Date, value: Num)

  /** A file of the folder, in the order the directory listing gives, with
      the lines `readlines` returns. */
  datatype CsvFile = CsvFile(name: string, lines: seq<string>)

  /** The branch the loop body takes on one data line. */
  datatype LineOutcome =
    | Blank          // only whitespace: skipped
    | Unsplittable   // no `;`, so the two-field unpacking fails: the loop stops
    | BadDate        // the first field matches neither timestamp layout: skipped
    | Flagged        // the value holds `F`, `K` or the reconstruction note: skipped
    | BadNumber      // the value is not a number: skipped
    | Kept(row: Row)

  predicate IsFlagged(value: string) {
    Contains(value, "F") || Contains(value, "K") || Contains(value, Reconstructed)
  }

  /** What the loop body does with a value field once the date was read. */
  function ClassifyValue(date: Date, field: string): (r: LineOutcome)
    ensures r.Flagged? || r.BadNumber? || r.Kept?
  {
    var value := ReplaceAll(Strip(field), GapMarker, "NaN");
    if IsFlagged(value) then Flagged
    else
      match ParseFloat(ReplaceAll(value, ",", "."))
      case None => BadNumber
      case Some(x) => Kept(Row(date, x))
  }

  /** What the loop body does with the first two fields of a line. */
  function ClassifyFields(stampField: string, valueField: string): (r: LineOutcome)
    ensures !r.Blank? && !r.Unsplittable?
  {
    match ParseStamp(Strip(stampField))
    case None => BadDate
    case Some(date) => ClassifyValue(date, valueField)
  }

  /** What the body of the line loop does with `line`. */
  function Classify(line: string): LineOutcome {
    if Strip(line) == [] then Blank
    else
      var fields := Split(line, ';');
      if |fields| < 2 then Unsplittable
      else ClassifyFields(fields[0], fields[1])
  }

  /** Whether some line of `lines` stops the loop. */
  predicate HasStop(lines: seq<string>) {
    exists i :: 0 <= i < |lines| && Classify(lines[i]).Unsplittable?
  }

  /** The branch the loop body takes on each line, in order. */
  function LineOutcomes(lines: seq<string>): (r: seq<LineOutcome>)
    ensures |r| == |lines| && forall i :: 0 <= i < |lines| ==> r[i] == Classify(lines[i])
  {
    seq(|lines|, i requires 0 <= i < |lines| => Classify(lines[i]))
  }

  /** The rows a run of the loop body collects from these outcomes: one per
      kept line, in order, up to the first line that stops the loop. */
  function Collect(outcomes: seq<LineOutcome>): seq<Row> {
    if outcomes == [] then []
    else
      match outcomes[0]
      case Unsplittable => []
      case Kept(row) => [row] + Collect(outcomes[1..])
      case _ => Collect(outcomes[1..])
  }

  /** The rows the line loop collects from `lines`. */
  function KeptRows(lines: seq<string>): seq<Row> {
    Collect(LineOutcomes(lines))
  }

  /** The rows collected from line `i` on, by what the loop does with line `i`. */
  lemma KeptRowsStep(lines: seq<string>, i: nat, outcome: LineOutcome)
    requires i < |lines| && outcome == Classify(lines[i])
    ensures outcome.Unsplittable? ==> KeptRows(lines[i..]) == []
    ensures outcome.Kept? ==> KeptRows(lines[i..]) == [outcome.row] + KeptRows(lines[i + 1..])
    ensures !outcome.Unsplittable? && !outcome.Kept? ==> KeptRows(lines[i..]) == KeptRows(lines[i + 1..])
  {
    var o := LineOutcomes(lines[i..]);
    assert o[0] == outcome;
    assert o[1..] == LineOutcomes(lines[i + 1..]);
  }

  /** One turn of the line loop keeps its invariant: the rows collected so
      far, followed by those the remaining lines yield, are those of all lines. */
  lemma KeptRowsLoop(lines: seq<string>, i: nat, data: seq<Row>, outcome: LineOutcome)
    requires i < |lines| && outcome == Classify(lines[i])
    requires KeptRows(lines) == data + KeptRows(lines[i..])
    ensures outcome.Unsplittable? ==> KeptRows(lines) == data
    ensures outcome.Kept? ==> KeptRows(lines) == (data + [outcome.row]) + KeptRows(lines[i + 1..])
    ensures !outcome.Unsplittable? && !outcome.Kept? ==> KeptRows(lines) == data + KeptRows(lines[i + 1..])
  {
    KeptRowsStep(lines, i, outcome);
    if outcome.Kept? {
      assert data + ([outcome.row] + KeptRows(lines[i + 1..])) == (data + [outcome.row]) + KeptRows(lines[i + 1..]);
    }
  }

  /** The body of the line loop of `to_dataframe` on one non-blank line,
      branch by branch; `Unsplittable` stands for the `break`. */
  method ReadLine(line: string) returns (outcome: LineOutcome)
    requires Strip(line) != []
    ensures outcome == Classify(line)
  {
    var fields := Split(line, ';');
    if |fields| < 2 {
      return Unsplittable;
    }
    var date := ParseLayout(Strip(fields[0]), true);
    if date.None? {
      date := ParseLayout(Strip(fields[0]), false);
      if date.None? {
        return BadDate;
      }
    }
    var valueStr := ReplaceAll(Strip(fields[1]), GapMarker, "NaN");
    if Contains(valueStr, "F") || Contains(valueStr, "K") || Contains(valueStr, Reconstructed) {
      return Flagged;
    }
    var value := ParseFloat(ReplaceAll(valueStr, ",", "."));
    if value.None? {
      return BadNumber;
    }
    return Kept(Row(date.value, value.value));
  }

  /** The loop over the data lines of one file (the inner `for` of
      `to_dataframe`): blank lines are skipped, the first line that cannot
      be split ends it, and the rows of kept lines are appended. */
  method ParseDataLines(lines: seq<string>) returns (data: seq<Row>)
    ensures data == KeptRows(lines)
  {
    data := [];
    var i := 0;
    while i < |lines|
      invariant 0 <= i <= |lines|
      invariant KeptRows(lines) == data + KeptRows(lines[i..])
    {
      var line := lines[i];
      var outcome := Blank;
      if Strip(line) != [] {
        outcome := ReadLine(line);
      }
      KeptRowsLoop(lines, i, data, outcome);
      if outcome.Unsplittable? {
        break;
      }
      if outcome.Kept? {
        data := data + [outcome.row];
      }
      i := i + 1;
    }
    if i == |lines| {
      assert lines[i..] == [];
    }
  }

  /** The index of the first line that starts with "Werte:". */
  function WerteLine(lines: seq<string>): (r: Option<nat>)
    ensures r.Some? ==> r.value < |lines| && StartsWith(lines[r.value], "Werte:")
    ensures r.Some? ==> forall j :: 0 <= j < r.value ==> !StartsWith(lines[j], "Werte:")
    ensures r.None? ==> forall j :: 0 <= j < |lines| ==> !StartsWith(lines[j], "Werte:")
  {
    if lines == [] then None
    else if StartsWith(lines[0], "Werte:") then Some(0)
    else match WerteLine(lines[1..])
      case None => None
      case Some(k) => Some(k + 1)
  }

  /** The series a file contributes to the dictionary, if any: it must be a
      `.csv` file with a "Werte:" line that does not say "Invalid", and keep
      at least one row; the last kept row is then dropped. */
  function FileSeries(f: CsvFile): Option<seq<Row>> {
    if !EndsWith(f.name, ".csv") then None
    else
      match WerteLine(f.lines)
      case None => None
      case Some(k) =>
        if Contains(Strip(f.lines[k]), "Invalid") then None
        else
          AllButLast(KeptRows(f.lines[k + 1..]))
  }

  /** A series without its last row, or none when there are no rows at all. */
  function AllButLast(rows: seq<Row>): Option<seq<Row>> {
    if rows == [] then None else Some(rows[..|rows| - 1])
  }

  /** `filename[-10:-4]`: the (up to) six characters before the last four. */
  function StationKey(name: string): (key: string)
    ensures |name| >= 4 ==> |key| == if |name| >= 10 then 6 else |name| - 4
  {
    var start := if |name| >= 10 then |name| - 10 else 0;
    var end := if |name| >= 4 then |name| - 4 else 0;
    name[start..end]
  }

  /** A dictionary filled from `(key, value)` pairs in order, skipping the
      pairs without a value: a later key overwrites an earlier one. */
  function Store<V>(pairs: seq<(string, Option<V>)>): map<string, V> {
    if pairs == [] then map[]
    else
      var m := Store(pairs[..|pairs| - 1]);
      var p := pairs[|pairs| - 1];
      if p.1.Some? then m[p.0 := p.1.value] else m
  }

  /** The key a file would be stored under and the series it yields, if any. */
  function Outcome(f: CsvFile): (string, Option<seq<Row>>) {
    (StationKey(f.name), FileSeries(f))
  }

  function Outcomes(files: seq<CsvFile>): (r: seq<(string, Option<seq<Row>>)>)
    ensures |r| == |files|
    ensures forall i :: 0 <= i < |files| ==> r[i] == Outcome(files[i])
  {
    if files == [] then [] else Outcomes(files[..|files| - 1]) + [Outcome(files[|files| - 1])]
  }

  /** The dictionary after the files of `files` have been read, in order. */
  function Entries(files: seq<CsvFile>): map<string, seq<Row>> {
    Store(Outcomes(files))
  }

  /** The station numbers among the keys: `int(key)` for every key with `isdigit()`. */
  function IntKeys(keys: set<string>): set<int> {
    set k | k in keys && IsDigitString(k) :: DigitsValue(k) as int
  }

  /** `tip[tip['hzbnr01'].isin(ids)]`: the rows whose station number is in `ids`, in order. */
  function Matching(tip: seq<Station>, ids: set<int>): (r: seq<Station>)
    ensures forall s :: multiset(r)[s] == if s.id in ids then multiset(tip)[s] else 0
  {
    if tip == [] then []
    else
      var rest := Matching(tip[1..], ids);
      assert tip == [tip[0]] + tip[1..];
      if tip[0].id in ids then [tip[0]] + rest else rest
  }

  /** Filtering keeps the table's row order: the matches of two stretches
      of rows are those of the first, then those of the second. */
  lemma {:induction false} MatchingAppend(a: seq<Station>, b: seq<Station>, ids: set<int>)
    ensures Matching(a + b, ids) == Matching(a, ids) + Matching(b, ids)
  {
    if a == [] {
      assert a + b == b;
    } else {
      assert (a + b)[0] == a[0];
      assert (a + b)[1..] == a[1..] + b;
      MatchingAppend(a[1..], b, ids);
    }
  }

  /** A single row is kept exactly when its number is among `ids`. */
  lemma MatchingOne(s: Station, ids: set<int>)
    ensures Matching([s], ids) == if s.id in ids then [s] else []
  {
    assert [s][1..] == [];
  }

  lemma EntriesStep(files: seq<CsvFile>, i: nat)
    requires i < |files|
    ensures Entries(files[..i + 1]) == match FileSeries(files[i])
      case None => Entries(files[..i])
      case Some(rows) => Entries(files[..i])[StationKey(files[i].name) := rows]
  {
    var pairs := Outcomes(files[..i + 1]);
    assert pairs[..i] == Outcomes(files[..i]);
    assert pairs[i] == Outcome(files[i]);
  }

  /** The body of the outer loop of `to_dataframe` for one file: the series
      it stores for that file, if any. */
  method ReadFile(f: CsvFile) returns (series: Option<seq<Row>>)
    ensures series == FileSeries(f)
  {
    if !EndsWith(f.name, ".csv") {
      return None;
    }
    var start := WerteLine(f.lines);
    if start.None? {
      return None;
    }
    if Contains(Strip(f.lines[start.value]), "Invalid") {
      return None;
    }
    var data := ParseDataLines(f.lines[start.value + 1..]);
    return AllButLast(data);
  }

  /** The outer loop of `to_dataframe` over the files of the folder. The
      coordinates stay the bare frame without columns until a series is
      stored, and are then the matching rows of `tip`. */
  method ToDataframe(files: seq<CsvFile>, tip: seq<Station>) returns (dict: map<string, seq<Row>>, coordinates: Coordinates)
    ensures dict == Entries(files)
    ensures coordinates.Columnless? <==> dict == map[]
    ensures coordinates.Rows? ==> coordinates.stations == Matching(tip, IntKeys(dict.Keys))
  {
    dict := map[];
    coordinates := Columnless;
    var i := 0;
    while i < |files|
      invariant 0 <= i <= |files|
      invariant dict == Entries(files[..i])
      invariant coordinates.Columnless? <==> dict == map[]
      invariant coordinates.Rows? ==> coordinates.stations == Matching(tip, IntKeys(dict.Keys))
    {
      var series := ReadFile(files[i]);
      EntriesStep(files, i);
      if series.Some? {
        dict := dict[StationKey(files[i].name) := series.value];
        assert StationKey(files[i].name) in dict;
        coordinates := Rows(Matching(tip, IntKeys(dict.Keys)));
      }
      i := i + 1;
    }
    assert files[..i] == files;
  }

  // Properties of the line rules

  /** Which lines are skipped and which one stops the loop. */
  lemma BlankAndStopLines(line: string)
    ensures Classify(line) == Blank <==> AllSpace(line)
    ensures Classify(line) == Unsplittable <==> !AllSpace(line) && ';' !in line
  {
  }

  /** The rows of two stretches of lines read one after the other: those of
      the first, then, unless the first stopped the loop, those of the second.
      So rows come out in file order. */
  lemma {:induction false} KeptRowsAppend(a: seq<string>, b: seq<string>)
    ensures KeptRows(a + b) == if HasStop(a) then KeptRows(a) else KeptRows(a) + KeptRows(b)
  {
    assert LineOutcomes(a + b) == LineOutcomes(a) + LineOutcomes(b);
    CollectAppend(LineOutcomes(a), LineOutcomes(b));
    if HasStop(a) {
      var i :| 0 <= i < |a| && Classify(a[i]).Unsplittable?;
      assert LineOutcomes(a)[i].Unsplittable?;
    }
  }

  /** Whether one of the outcomes stops the loop. */
  predicate Stops(outcomes: seq<LineOutcome>) {
    exists i :: 0 <= i < |outcomes| && outcomes[i].Unsplittable?
  }

  lemma {:induction false} CollectAppend(a: seq<LineOutcome>, b: seq<LineOutcome>)
    ensures Collect(a + b) == if Stops(a) then Collect(a) else Collect(a) + Collect(b)
  {
    if a == [] {
      assert a + b == b;
    } else {
      assert (a + b)[0] == a[0];
      assert (a + b)[1..] == a[1..] + b;
      CollectAppend(a[1..], b);
      if Stops(a[1..]) {
        var i :| 0 <= i < |a[1..]| && a[1..][i].Unsplittable?;
        assert a[i + 1].Unsplittable?;
      }
      if Stops(a) && !a[0].Unsplittable? {
        var i :| 0 <= i < |a| && a[i].Unsplittable?;
        assert a[1..][i - 1] == a[i];
      }
      if a[0].Kept? && !Stops(a) {
        assert [a[0].row] + (Collect(a[1..]) + Collect(b)) == ([a[0].row] + Collect(a[1..])) + Collect(b);
      }
    }
  }

  /** A line that cannot be split ends the section: no later line is read. */
  lemma StopIgnoresRest(before: seq<string>, line: string, after: seq<string>)
    requires Classify(line) == Unsplittable
    ensures KeptRows(before + [line] + after) == KeptRows(before)
  {
    assert before + [line] + after == before + ([line] + after);
    KeptRowsAppend(before, [line] + after);
  }

  /** The first two `;` fields of a line made of a timestamp field, a value
      field and, optionally, more fields. */
  lemma FieldsOf(stamp: string, value: string, rest: string)
    requires ';' !in stamp && ';' !in value && (rest == [] || rest[0] == ';')
    ensures |Split(stamp + ";" + value + rest, ';')| >= 2
    ensures Split(stamp + ";" + value + rest, ';')[0] == stamp
    ensures Split(stamp + ";" + value + rest, ';')[1] == value
  {
    assert stamp + ";" + value + rest == stamp + [';'] + (value + rest);
    SplitAtFirst(stamp, value + rest, ';');
    if rest == [] {
      assert value + rest == value;
    } else {
      assert value + rest == value + [';'] + rest[1..];
      SplitAtFirst(value, rest[1..], ';');
    }
  }

  /** A line whose first field holds a timestamp is decided by its value field. */
  lemma ClassifyOf(stamp: string, value: string, rest: string, date: Date)
    requires ';' !in stamp && ';' !in value && (rest == [] || rest[0] == ';')
    requires ParseStamp(Strip(stamp)) == Some(date)
    ensures Classify(stamp + ";" + value + rest) == ClassifyValue(date, value)
  {
    FieldsOf(stamp, value, rest);
    EmptyStampUnreadable();
    NotBlankLine(stamp, value, rest);
    ClassifyLine(stamp + ";" + value + rest, date);
  }

  /** A non-blank line with two fields whose first holds a timestamp is
      decided by its second field. */
  lemma ClassifyLine(line: string, date: Date)
    requires Strip(line) != [] && |Split(line, ';')| >= 2
    requires ParseStamp(Strip(Split(line, ';')[0])) == Some(date)
    ensures Classify(line) == ClassifyValue(date, Split(line, ';')[1])
  {
  }

  lemma EmptyStampUnreadable()
    ensures ParseStamp([]) == None
  {
    assert DigitRun([]) == 0;
  }

  /** A line that starts with a field holding more than whitespace is not blank. */
  lemma NotBlankLine(stamp: string, value: string, rest: string)
    requires Strip(stamp) != []
    ensures Strip(stamp + ";" + value + rest) != []
  {
    var i :| 0 <= i < |stamp| && !IsSpace(stamp[i]);
    assert (stamp + ";" + value + rest)[i] == stamp[i];
  }

  lemma NotFlagged(s: string)
    requires 'F' !in s && 'K' !in s && 'r' !in s
    ensures !IsFlagged(s)
  {
    if Contains(s, "F") { ContainsHead(s, "F"); }
    if Contains(s, "K") { ContainsHead(s, "K"); }
    if Contains(s, Reconstructed) { ContainsHead(s, Reconstructed); }
  }

  /** A gap field is kept, with the value NaN: the marker is rewritten before
      the keyword test. */
  lemma GapValue(date: Date, field: string)
    requires Strip(field) == GapMarker
    ensures ClassifyValue(date, field) == Kept(Row(date, NaN))
  {
    assert ReplaceAll(GapMarker, GapMarker, "NaN") == "NaN" by {
      assert GapMarker[|GapMarker|..] == [];
    }
    NotFlagged("NaN");
    ReplaceAllAbsent("NaN", ",", ".");
    ParseNaN();
  }

  /** A gap row is kept, with the value NaN. */
  lemma GapKeptAsNaN(stamp: string, value: string, rest: string, date: Date)
    requires ';' !in stamp && ';' !in value && (rest == [] || rest[0] == ';')
    requires ParseStamp(Strip(stamp)) == Some(date)
    requires Strip(value) == GapMarker
    ensures Classify(stamp + ";" + value + rest) == Kept(Row(date, NaN))
  {
    ClassifyOf(stamp, value, rest, date);
    GapValue(date, value);
  }

  /** `F` and `K` survive the stripping and the gap rewriting, so a field
      that holds one is flagged. */
  lemma FlaggedText(field: string)
    requires 'F' in field || 'K' in field
    ensures IsFlagged(ReplaceAll(Strip(field), GapMarker, "NaN"))
  {
    StripKeepsChar(field, 'F');
    StripKeepsChar(field, 'K');
    var value := ReplaceAll(Strip(field), GapMarker, "NaN");
    ReplaceAllKeepsChar(Strip(field), GapMarker, "NaN", 'F');
    ReplaceAllKeepsChar(Strip(field), GapMarker, "NaN", 'K');
    ContainsChar(value, 'F');
    ContainsChar(value, 'K');
  }

  /** A value that holds `F` or `K` is never kept, whatever else the line
      holds. A value holding the reconstruction note after the rewriting is
      skipped by the same keyword test (`IsFlagged`), before any attempt to
      read it as a number. */
  lemma FlaggedNeverKept(line: string)
    requires |Split(line, ';')| >= 2
    requires 'F' in Split(line, ';')[1] || 'K' in Split(line, ';')[1]
    ensures !Classify(line).Kept?
  {
    FlaggedText(Split(line, ';')[1]);
  }

  lemma CommaDecimalChars(whole: string, fraction: string)
    requires AllDigits(whole) && AllDigits(fraction)
    ensures forall c :: c in whole + "," + fraction ==> IsDigit(c) || c == ','
  {
    forall c | c in whole + "," + fraction ensures IsDigit(c) || c == ',' {
      assert c in whole || c == ',' || c in fraction;
    }
  }

  // A decimal written with a comma passes the text rewriting of the loop
  // body unchanged and unflagged, and comes out written with a point.

  lemma CommaDecimalNoGap(whole: string, fraction: string)
    requires IsDigitString(whole) && IsDigitString(fraction)
    ensures ReplaceAll(whole + "," + fraction, GapMarker, "NaN") == whole + "," + fraction
    ensures !IsFlagged(whole + "," + fraction)
  {
    CommaDecimalChars(whole, fraction);
    assert GapMarker[0] == 'L';
    ReplaceAllAbsent(whole + "," + fraction, GapMarker, "NaN");
    NotFlagged(whole + "," + fraction);
  }

  lemma CommaDecimalToPoint(whole: string, fraction: string)
    requires IsDigitString(whole) && IsDigitString(fraction)
    ensures ReplaceAll(whole + "," + fraction, ",", ".") == whole + "." + fraction
  {
    assert ',' !in whole && ',' !in fraction;
    ReplaceSingle(whole, fraction, ',', '.');
  }

  /** A value written with a decimal comma is read as the decimal it denotes. */
  lemma DecimalCommaValue(date: Date, field: string, whole: string, fraction: string)
    requires IsDigitString(whole) && IsDigitString(fraction)
    requires Strip(field) == whole + "," + fraction
    ensures ClassifyValue(date, field)
      == Kept(Row(date, Finite(DecimalValue(DigitsValue(whole), DigitsValue(fraction), |fraction|))))
  {
    CommaDecimalNoGap(whole, fraction);
    CommaDecimalToPoint(whole, fraction);
    ParseDecimal(whole, fraction);
  }

  // Properties of the file and folder rules

  lemma {:induction false} WerteLineShift(before: seq<string>, lines: seq<string>)
    requires forall j :: 0 <= j < |before| ==> !StartsWith(before[j], "Werte:")
    ensures WerteLine(before + lines) == match WerteLine(lines)
      case None => None
      case Some(k) => Some(k + |before|)
  {
    if before != [] {
      assert (before + lines)[0] == before[0];
      assert (before + lines)[1..] == before[1..] + lines;
      WerteLineShift(before[1..], lines);
    } else {
      assert before + lines == lines;
    }
  }

  /** A `.csv` file is read from the line after its first "Werte:" line on;
      what comes before that line plays no part. It yields no entry when
      that line says "Invalid" or no row is kept, and otherwise all kept rows
      but the last. */
  lemma FileWithWerte(name: string, before: seq<string>, header: string, data: seq<string>)
    requires EndsWith(name, ".csv")
    requires forall j :: 0 <= j < |before| ==> !StartsWith(before[j], "Werte:")
    requires StartsWith(header, "Werte:")
    ensures FileSeries(CsvFile(name, before + [header] + data))
      == if Contains(Strip(header), "Invalid") || KeptRows(data) == [] then None
         else Some(KeptRows(data)[..|KeptRows(data)| - 1])
  {
    var lines := before + [header] + data;
    assert lines == before + ([header] + data);
    WerteLineShift(before, [header] + data);
    assert lines[|before|] == header;
    assert lines[|before| + 1..] == data;
  }

  /** A file without a "Werte:" line, or one that is not a `.csv` file, yields no entry. */
  lemma NoWerteNoEntry(f: CsvFile)
    requires !EndsWith(f.name, ".csv") || forall j :: 0 <= j < |f.lines| ==> !StartsWith(f.lines[j], "Werte:")
    ensures FileSeries(f) == None
  {
  }

  /** The key of a station file named `<anything><six characters>.csv`. */
  lemma StationKeyOf(prefix: string, id: string)
    requires |id| == 6
    ensures StationKey(prefix + id + ".csv") == id
  {
    var name := prefix + id + ".csv";
    assert name[|name| - 10..|name| - 4] == id;
  }

  /** File `f` gives the dictionary an entry under `key`. */
  predicate Produces(f: CsvFile, key: string) {
    FileSeries(f).Some? && StationKey(f.name) == key
  }

  /** File `files[i]` is the last one that gives an entry under `key`. */
  predicate LastProducer(files: seq<CsvFile>, key: string, i: int) {
    0 <= i < |files| && Produces(files[i], key)
    && forall j :: i < j < |files| ==> !Produces(files[j], key)
  }

  lemma {:induction false} StoreKeys<V>(pairs: seq<(string, Option<V>)>, key: string)
    ensures key in Store(pairs) <==> exists i :: 0 <= i < |pairs| && pairs[i].0 == key && pairs[i].1.Some?
  {
    if pairs != [] {
      var init := pairs[..|pairs| - 1];
      StoreKeys(init, key);
      if exists i :: 0 <= i < |pairs| && pairs[i].0 == key && pairs[i].1.Some? {
        var i :| 0 <= i < |pairs| && pairs[i].0 == key && pairs[i].1.Some?;
        if i < |init| {
          assert init[i] == pairs[i];
        }
      }
      if exists i :: 0 <= i < |init| && init[i].0 == key && init[i].1.Some? {
        var i :| 0 <= i < |init| && init[i].0 == key && init[i].1.Some?;
        assert pairs[i] == init[i];
      }
    }
  }

  lemma {:induction false} StoreLast<V>(pairs: seq<(string, Option<V>)>, key: string, i: int)
    requires 0 <= i < |pairs| && pairs[i].0 == key && pairs[i].1.Some?
    requires forall j :: i < j < |pairs| ==> !(pairs[j].0 == key && pairs[j].1.Some?)
    ensures key in Store(pairs) && Store(pairs)[key] == pairs[i].1.value
  {
    var init := pairs[..|pairs| - 1];
    if i < |pairs| - 1 {
      assert init[i] == pairs[i];
      forall j | i < j < |init| ensures !(init[j].0 == key && init[j].1.Some?) {
        assert init[j] == pairs[j];
      }
      StoreLast(init, key, i);
    }
  }

  /** A key is in the dictionary exactly when some file produced it. */
  lemma EntriesKeys(files: seq<CsvFile>, key: string)
    ensures key in Entries(files) <==> exists i :: 0 <= i < |files| && Produces(files[i], key)
  {
    var pairs := Outcomes(files);
    StoreKeys(pairs, key);
    if key in Entries(files) {
      var i :| 0 <= i < |pairs| && pairs[i].0 == key && pairs[i].1.Some?;
      assert Produces(files[i], key);
    }
    if exists i :: 0 <= i < |files| && Produces(files[i], key) {
      var i :| 0 <= i < |files| && Produces(files[i], key);
      assert pairs[i].0 == key && pairs[i].1.Some?;
    }
  }

  /** A key holds the series of the last file that produced it: a later
      file with the same key overwrites an earlier one. */
  lemma EntriesLastWriter(files: seq<CsvFile>, key: string, i: int)
    requires LastProducer(files, key, i)
    ensures key in Entries(files) && Entries(files)[key] == FileSeries(files[i]).value
  {
    var pairs := Outcomes(files);
    forall j | i < j < |pairs| ensures !(pairs[j].0 == key && pairs[j].1.Some?) {
      assert !Produces(files[j], key);
    }
    StoreLast(pairs, key, i);
  }
}
